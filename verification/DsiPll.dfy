/** The display PLL: a requested VCO frequency is turned into divider and calibration register fields by
    truncating divisions in 32 and 64 bit unsigned arithmetic. */
module DsiPll {

  const VCO_REF_CLOCK_RATE: nat := 19200000
  const FRAC_DIVIDER: nat := 10000
  const ERROR: int := -1

  function U8(x: int): nat { x % 0x100 }

  function U32(x: int): nat { x % 0x1_0000_0000 }

  function U64(x: int): nat { x % 0x1_0000_0000_0000_0000 }

  // ----- loop filter -----

  datatype Lpfr = Lpfr(vcoRate: nat, resistance: nat)

  const LPFR_LUT: seq<Lpfr> := [
    Lpfr(479500000, 8), Lpfr(480000000, 11), Lpfr(575500000, 8), Lpfr(576000000, 12), Lpfr(610500000, 8),
    Lpfr(659500000, 9), Lpfr(671500000, 10), Lpfr(672000000, 14), Lpfr(708500000, 10), Lpfr(750000000, 11)]

  const VCO_MAX: nat := 750000000

  /** The entry with the lowest rate that is not below the request. */
  ghost predicate Tightest(vco: nat, i: int) {
    && 0 <= i < |LPFR_LUT| && vco <= LPFR_LUT[i].vcoRate
    && forall j :: 0 <= j < |LPFR_LUT| && vco <= LPFR_LUT[j].vcoRate ==> LPFR_LUT[i].vcoRate <= LPFR_LUT[j].vcoRate
  }

  // ----- register fields -----

  // The computed fields: reference selection, the four SDM bytes, two calibration bytes.
  datatype Fields = Fields(refclk: nat, sdm0: nat, sdm1: nat, sdm2: nat, sdm3: nat, cal10: nat, cal11: nat)

  /** Every field fits the byte that holds it. */
  predicate InBytes(f: Fields) {
    f.sdm0 < 256 && f.sdm1 < 256 && f.sdm2 < 256 && f.sdm3 < 256 && f.cal10 < 256 && f.cal11 < 256
  }

  // Or with the integer mode flag, bit 5.
  function OrBit5(x: nat): nat { if x / 32 % 2 == 1 then x else x + 32 }

  function RefClock(refclk: nat): nat { if refclk == 1 then 2 * VCO_REF_CLOCK_RATE else VCO_REF_CLOCK_RATE }

  /** 65536 times the frequency that the SDM fields stand for. With bit 5 of the first one set it is a whole
      multiple of the reference, one more than the five bits below; otherwise the other three give the multiple,
      less one, and its fraction. */
  function Decoded(f: Fields): nat {
    if f.sdm0 / 32 % 2 == 1 then
      RefClock(f.refclk) * (f.sdm0 % 32 + 1) * 65536
    else
      RefClock(f.refclk) * ((f.sdm1 + 1) * 65536 + f.sdm3 * 256 + f.sdm2)
  }

  // Registers that get the same value whatever the frequency: the loop filter's capacitors, the charge pump, the second
  // post divider, calibration and lock detection, and a few more.
  const FIXED: map<nat, nat> := map[
    0x30 := 0x70, 0x34 := 0x15, 0x08 := 0x02, 0x24 := 0x03, 0x78 := 0x2b, 0x7c := 0x66, 0x64 := 0x05, 0x48 := 0x00,
    0x14 := 0x00, 0x0c := 0x71, 0x6c := 0x0a, 0x84 := 0x30, 0x88 := 0x00, 0x8c := 0x60, 0x90 := 0x00, 0x9c := 0x20]

  // Registers that get a computed or a passed value.
  const CHOSEN: set<nat> := {0x2c, 0x04, 0x28, 0x3c, 0x40, 0x44, 0x00, 0x10, 0x38, 0x94, 0x98}

  class Pll {
    var regs: map<nat, nat>

    constructor ()
    {
      regs := map[];
    }

    predicate Programmed()
      reads this
    {
      0x00 in regs && 0x38 in regs && 0x3c in regs && 0x40 in regs && 0x44 in regs && 0x94 in regs && 0x98 in regs
    }

    function Settings(): Fields
      requires Programmed()
      reads this
    {
      Fields(regs[0x00], regs[0x38], regs[0x3c], regs[0x40], regs[0x44], regs[0x94], regs[0x98])
    }

    method Store(f: Fields, resistance: nat, posdiv1: nat, posdiv3: nat, directpath: nat)
      modifies this
      ensures Programmed() && Settings() == f
      ensures 0x2c in regs && regs[0x2c] == resistance && 0x04 in regs && regs[0x04] == posdiv1
      ensures 0x28 in regs && regs[0x28] == posdiv3 && 0x10 in regs && regs[0x10] == directpath
      ensures regs - CHOSEN == old(regs) - CHOSEN
    {
      regs := regs + map[0x2c := resistance, 0x04 := posdiv1, 0x28 := posdiv3, 0x3c := f.sdm1, 0x40 := f.sdm2,
                         0x44 := f.sdm3, 0x00 := f.refclk, 0x10 := directpath, 0x38 := f.sdm0, 0x94 := f.cal10,
                         0x98 := f.cal11];
    }

    /** The PLL set up for a frequency. The error code comes back through an eight bit variable. */
    method AutoPllConfig(vco: nat, posdiv1: nat, posdiv3: nat, directpath: nat) returns (rc: nat)
      requires vco < 0x1_0000_0000
      modifies this
      ensures vco > VCO_MAX ==> rc == 255 && regs == old(regs)
      ensures vco <= VCO_MAX ==> rc == 0 && Programmed() && Settings() == FieldsFor(vco)
      ensures vco <= VCO_MAX ==>
        0x2c in regs && exists i :: 0 <= i < |LPFR_LUT| && Tightest(vco, i) && regs[0x2c] == LPFR_LUT[i].resistance
      ensures vco <= VCO_MAX ==>
        && 0x04 in regs && regs[0x04] == posdiv1 && 0x28 in regs && regs[0x28] == posdiv3
        && 0x10 in regs && regs[0x10] == directpath
      ensures vco <= VCO_MAX ==> regs - CHOSEN == (old(regs) + FIXED) - CHOSEN
      ensures vco <= VCO_MAX ==> regs[0x98] * 256 + regs[0x94] == (vco - vco % 3840) / 1000000
      ensures 2 * VCO_REF_CLOCK_RATE <= vco <= VCO_MAX && vco % VCO_REF_CLOCK_RATE != 0 ==>
        && regs[0x00] == 1 && regs[0x38] == 0
        && 0 <= vco * 65536 - 2 * VCO_REF_CLOCK_RATE * ((regs[0x3c] + 1) * 65536 + regs[0x44] * 256 + regs[0x40])
           < 4426 * 65536
      ensures 0 < vco <= VCO_MAX && vco % VCO_REF_CLOCK_RATE == 0 ==>
        && regs[0x00] == 0 && regs[0x3c] == regs[0x40] == regs[0x44] == 0 && regs[0x38] / 32 == 1
        && (vco <= 32 * VCO_REF_CLOCK_RATE ==> vco == VCO_REF_CLOCK_RATE * (regs[0x38] % 32 + 1))
    {
      hide FieldsFor, Tightest;
      var i := FindRate(vco);
      if i == |LPFR_LUT| {
        rc := U8(ERROR);
        return;
      }
      var f := ComputeFields(vco);
      FieldsMean(vco);
      regs := regs + FIXED;
      Store(f, LPFR_LUT[i].resistance, posdiv1, posdiv3, directpath);
      rc := 0;
    }
  }

  /** The fields, worked out in 32 and 64 bit variables. */
  method ComputeFields(vco: nat) returns (f: Fields)
    requires vco <= VCO_MAX
    ensures f == FieldsFor(vco)
  {
    NoOverflow(vco);
    var rem := vco % VCO_REF_CLOCK_RATE;
    var refclkCfg, fracNMode, refDoublerEnB := 0, false, 1;
    if rem != 0 {
      refclkCfg, fracNMode, refDoublerEnB := 1, true, 0;
    }
    var refClk := U32(VCO_REF_CLOCK_RATE * 2 * refclkCfg + refDoublerEnB * VCO_REF_CLOCK_RATE);
    assert refclkCfg == RefFor(vco) && refClk == RefClock(refclkCfg);
    hide RefClock, RefFor, U32, U64;
    var vcoClock := U64(vco * FRAC_DIVIDER);
    Fits64(vco * FRAC_DIVIDER);
    var divFbx := vcoClock / refClk;
    assert divFbx == Quotient(vco);
    hide Quotient;
    rem := U32(divFbx % FRAC_DIVIDER);
    Fits32(divFbx % FRAC_DIVIDER);
    Fits32(rem * 65536);
    rem := U32(rem * 65536);
    var fracNValue := rem / FRAC_DIVIDER;
    assert fracNValue == Frac(vco);
    var divider := vco / refClk;
    Fits64(divFbx * refClk);
    divFbx := U64(divFbx * refClk);
    Fits32(divFbx / FRAC_DIVIDER);
    var genVcoClk := U32(divFbx / FRAC_DIVIDER);
    assert divider == Divider(vco) && genVcoClk == Generated(vco);
    hide Frac, Divider, Generated;
    var sdm0, sdm1, sdm2, sdm3 := 0, 0, 0, 0;
    if fracNMode {
      sdm1 := U32(divider % 64 - 1);
      sdm3 := fracNValue / 256;
      sdm2 := fracNValue % 256;
    } else {
      sdm0 := OrBit5(U32(divider % 64 - 1));
    }
    var cal11 := genVcoClk / 256000000;
    var cal10 := genVcoClk % 256000000 / 1000000;
    f := Fields(refclkCfg, sdm0, sdm1, sdm2, sdm3, cal10, cal11);
  }

  lemma Fits32(x: int)
    requires 0 <= x < 0x1_0000_0000
    ensures U32(x) == x
  {
  }

  lemma Fits64(x: int)
    requires 0 <= x < 0x1_0000_0000_0000_0000
    ensures U64(x) == x
  {
  }

  method FindRate(vco: nat) returns (i: nat)
    ensures vco > VCO_MAX ==> i == |LPFR_LUT|
    ensures vco <= VCO_MAX ==> Tightest(vco, i)
  {
    i := 0;
    while i < |LPFR_LUT| && vco > LPFR_LUT[i].vcoRate
      invariant i <= |LPFR_LUT| && forall j :: 0 <= j < i ==> vco > LPFR_LUT[j].vcoRate
    {
      i := i + 1;
    }
    if i == |LPFR_LUT| {
      assert vco > LPFR_LUT[9].vcoRate;
    } else {
      assert LPFR_LUT[i].vcoRate <= VCO_MAX;
      LowestRate(vco, i);
    }
  }

  lemma LowestRate(vco: nat, i: nat)
    requires i < |LPFR_LUT| && vco <= LPFR_LUT[i].vcoRate && forall j :: 0 <= j < i ==> vco > LPFR_LUT[j].vcoRate
    ensures Tightest(vco, i)
  {
    forall j | 0 <= j < |LPFR_LUT| && vco <= LPFR_LUT[j].vcoRate
      ensures LPFR_LUT[i].vcoRate <= LPFR_LUT[j].vcoRate
    {
      assert j >= i;
    }
  }

  // ----- the arithmetic, without bounds -----

  function RefFor(vco: nat): nat { if vco % VCO_REF_CLOCK_RATE == 0 then 0 else 1 }

  // The quotient by the reference in ten thousandths.
  function Quotient(vco: nat): nat { vco * FRAC_DIVIDER / RefClock(RefFor(vco)) }

  function Frac(vco: nat): nat { Quotient(vco) % FRAC_DIVIDER * 65536 / FRAC_DIVIDER }

  function Divider(vco: nat): nat { vco / RefClock(RefFor(vco)) }

  function Generated(vco: nat): nat { Quotient(vco) * RefClock(RefFor(vco)) / FRAC_DIVIDER }

  function FieldsFor(vco: nat): Fields {
    var less := U32(Divider(vco) % 64 - 1);
    var cal11, cal10 := Generated(vco) / 256000000, Generated(vco) % 256000000 / 1000000;
    if RefFor(vco) == 0 then Fields(0, OrBit5(less), 0, 0, 0, cal10, cal11)
    else Fields(1, 0, less, Frac(vco) % 256, Frac(vco) / 256, cal10, cal11)
  }

  /** No intermediate value leaves its 32 or 64 bit variable. */
  lemma NoOverflow(vco: nat)
    requires vco <= VCO_MAX
    ensures vco * FRAC_DIVIDER < 0x1_0000_0000_0000_0000
    ensures Quotient(vco) % FRAC_DIVIDER * 65536 < 0x1_0000_0000
    ensures Quotient(vco) * RefClock(RefFor(vco)) < 0x1_0000_0000_0000_0000 && Generated(vco) < 0x1_0000_0000
  {
    GeneratedIs(vco);
  }

  /** The frequency handed to the calibration is the request less its remainder by 3840 Hz, and the request itself
      when that is a multiple of the reference. */
  lemma GeneratedIs(vco: nat)
    ensures Generated(vco) == vco - vco % 3840
    ensures RefFor(vco) == 0 ==> Generated(vco) == vco
  {
    if RefFor(vco) == 0 {
      var n := vco / VCO_REF_CLOCK_RATE;
      assert vco == VCO_REF_CLOCK_RATE * n && Quotient(vco) == n * FRAC_DIVIDER;
      assert vco == 3840 * (5000 * n);
    } else {
      assert vco * 10000 / 38400000 == vco / 3840;
    }
  }

  /** The calibration bytes hold the whole megahertz of a value less than 3840 Hz below the request. */
  lemma Calibration(vco: nat)
    requires vco <= VCO_MAX
    ensures var f := FieldsFor(vco);
      f.cal10 < 256 && f.cal11 < 256 && f.cal11 * 256 + f.cal10 == (vco - vco % 3840) / 1000000
  {
    GeneratedIs(vco);
  }

  // In fractional mode the fields are the quotient's whole part, less one, and its fraction in 65536ths.
  lemma FractionalFields(vco: nat) returns (q: nat, n: nat)
    requires 38400000 <= vco <= VCO_MAX && vco % VCO_REF_CLOCK_RATE != 0
    ensures 1 <= q <= 19 && n < 65536 && n == vco / 3840 % 10000 * 65536 / 10000 && q == vco / 38400000
    ensures var f := FieldsFor(vco);
      f.refclk == 1 && f.sdm0 == 0 && f.sdm1 == q - 1 && f.sdm2 == n % 256 && f.sdm3 == n / 256
  {
    q, n := Divider(vco), Frac(vco);
    assert Quotient(vco) == vco / 3840;
    hide Quotient;
  }

  /** In fractional mode the decoded frequency is at most the request and less than 4426 Hz below it. */
  lemma FractionalError(vco: nat)
    requires 38400000 <= vco <= VCO_MAX && vco % VCO_REF_CLOCK_RATE != 0
    ensures InBytes(FieldsFor(vco))
    ensures 0 <= vco * 65536 - Decoded(FieldsFor(vco)) < 4426 * 65536
  {
    hide FieldsFor;
    Calibration(vco);
    var q, n := FractionalFields(vco);
    assert n / 256 * 256 + n % 256 == n;
    assert Decoded(FieldsFor(vco)) == 38400000 * (q * 65536 + n);
    Truncated(vco);
  }

  // What the nested divisions lose: less than one part in ten thousand, and then less than one in 65536.
  lemma Truncated(vco: nat)
    ensures var n := vco / 3840 % 10000 * 65536 / 10000;
      0 <= vco * 65536 - 38400000 * (vco / 38400000 * 65536 + n) < 4426 * 65536
  {
    var q, t := vco / 38400000, vco / 3840 % 10000;
    assert vco / 3840 / 10000 == q;
    var n := t * 65536 / 10000;
    assert n * 10000 <= t * 65536 < n * 10000 + 10000;
    assert vco / 3840 == q * 10000 + t;
    assert 0 <= vco - 3840 * (q * 10000 + t) < 3840;
  }

  // In integer mode only the first field is used.
  lemma IntegerFields(vco: nat) returns (d: nat)
    requires 0 < vco <= VCO_MAX && vco % VCO_REF_CLOCK_RATE == 0
    ensures 1 <= d <= 39 && vco == VCO_REF_CLOCK_RATE * d
    ensures var f := FieldsFor(vco);
      f.refclk == 0 && f.sdm0 == OrBit5(d - 1) && f.sdm1 == 0 && f.sdm2 == 0 && f.sdm3 == 0
  {
    hide Generated, Frac, Quotient;
    d := Divider(vco);
    assert vco == VCO_REF_CLOCK_RATE * d;
  }

  /** In integer mode the bytes fit, and they stand for the request exactly when the divider is at most 32: from
      33 on, bit 5 of the divider field is the mode flag itself and its value is lost. */
  lemma IntegerExact(vco: nat)
    requires 0 < vco <= VCO_MAX && vco % VCO_REF_CLOCK_RATE == 0
    ensures InBytes(FieldsFor(vco))
    ensures Decoded(FieldsFor(vco)) == vco * 65536 <==> vco <= 32 * VCO_REF_CLOCK_RATE
  {
    hide FieldsFor;
    Calibration(vco);
    var d := IntegerFields(vco);
    assert Decoded(FieldsFor(vco)) == 19200000 * (if d <= 32 then d else d - 32) * 65536;
  }

  // What the fields of a request say, field by field.
  lemma FieldsMean(vco: nat)
    requires vco <= VCO_MAX
    ensures var f := FieldsFor(vco); f.cal11 * 256 + f.cal10 == (vco - vco % 3840) / 1000000
    ensures 2 * VCO_REF_CLOCK_RATE <= vco && vco % VCO_REF_CLOCK_RATE != 0 ==>
      var f := FieldsFor(vco);
      && f.refclk == 1 && f.sdm0 == 0
      && 0 <= vco * 65536 - 2 * VCO_REF_CLOCK_RATE * ((f.sdm1 + 1) * 65536 + f.sdm3 * 256 + f.sdm2) < 4426 * 65536
    ensures 0 < vco && vco % VCO_REF_CLOCK_RATE == 0 ==>
      var f := FieldsFor(vco);
      && f.refclk == 0 && f.sdm1 == f.sdm2 == f.sdm3 == 0 && f.sdm0 / 32 == 1
      && (vco <= 32 * VCO_REF_CLOCK_RATE ==> vco == VCO_REF_CLOCK_RATE * (f.sdm0 % 32 + 1))
  {
    hide FieldsFor;
    Calibration(vco);
    if vco % VCO_REF_CLOCK_RATE != 0 {
      if 2 * VCO_REF_CLOCK_RATE <= vco {
        FractionalError(vco);
        var _, _ := FractionalFields(vco);
      }
    } else if 0 < vco {
      var d := IntegerFields(vco);
    }
  }

  /** So no reading of the SDM fields can tell such a request from the one 32 references below. */
  lemma IntegerAmbiguous(a: nat, b: nat)
    requires 0 < a < b <= VCO_MAX && a % VCO_REF_CLOCK_RATE == 0 && b % VCO_REF_CLOCK_RATE == 0
    ensures var f, g := FieldsFor(a), FieldsFor(b);
      g == f.(cal10 := g.cal10, cal11 := g.cal11) <==> b == a + 32 * VCO_REF_CLOCK_RATE
  {
    hide FieldsFor;
    var m := IntegerFields(a);
    var n := IntegerFields(b);
  }

  /** The SDM fields fit their bytes exactly for requests of at least twice the reference, and for the reference
      itself: below, the divider is 0 and one less wraps around. */
  lemma BytesFrom(vco: nat)
    requires vco <= VCO_MAX
    ensures InBytes(FieldsFor(vco)) <==> vco >= 2 * VCO_REF_CLOCK_RATE || vco == VCO_REF_CLOCK_RATE
  {
    if vco >= 38400000 && vco % VCO_REF_CLOCK_RATE != 0 {
      FractionalError(vco);
    } else if 0 < vco && vco % VCO_REF_CLOCK_RATE == 0 {
      IntegerExact(vco);
      var d := IntegerFields(vco);
    } else {
      assert Divider(vco) == 0;
    }
  }

  /** Requests apart by the error bound or more are never given the same fields, below the range where integer mode
      loses a bit. */
  lemma Distinguished(a: nat, b: nat)
    requires 38400000 <= a && a + 4426 <= b <= 32 * VCO_REF_CLOCK_RATE
    ensures FieldsFor(a) != FieldsFor(b)
    ensures Decoded(FieldsFor(a)) < Decoded(FieldsFor(b))
  {
    DecodedBelow(a);
    DecodedBelow(b);
  }

  lemma DecodedBelow(vco: nat)
    requires 38400000 <= vco <= 32 * VCO_REF_CLOCK_RATE
    ensures 0 <= vco * 65536 - Decoded(FieldsFor(vco)) < 4426 * 65536
  {
    if vco % VCO_REF_CLOCK_RATE == 0 {
      IntegerExact(vco);
    } else {
      FractionalError(vco);
    }
  }
}
