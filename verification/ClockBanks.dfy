/** The glitch-free rate switch of a clock with two banks: the idle bank is programmed while the clock runs
    on the other, then the select bit is flipped and the bank left behind is parked. */
module ClockBanks {

  // A register value or a mask, as the set of its bits that are 1: | is union, & intersection, & ~ difference.
  type Bits = set<nat>

  function Xor(a: Bits, b: Bits): Bits { (a - b) + (b - a) }

  // The bits of one bank: source and divider, M/N reset, M/N enable, and M/N mode.
  datatype Bank = Bank(nsMask: Bits, rstMask: Bits, mndEnMask: Bits, modeMask: Bits)

  datatype Banks = Banks(selMask: Bits, bank0: Bank, bank1: Bank)
  {
    function Of(second: bool): Bank { if second then bank1 else bank0 }
  }

  // The NS and CC registers and the M/D register of each bank.
  datatype Regs = Regs(ns: Bits, ctl: Bits, md0: Bits, md1: Bits)
  {
    function Md(second: bool): Bits { if second then md1 else md0 }
  }

  datatype Freq = Freq(hz: nat, mdVal: Bits, nsVal: Bits, ctlVal: Bits, mndEnMask: Bits)

  /** No two fields share a bit, and the select field is a single bit. */
  predicate Disjoint(b: Banks) {
    && |b.selMask| == 1
    && b.bank0.nsMask !! b.bank1.nsMask !! b.bank0.rstMask !! b.bank1.rstMask
    && b.bank0.mndEnMask !! b.bank1.mndEnMask !! b.bank0.modeMask !! b.bank1.modeMask !! b.selMask
  }

  // Everything the hardware reads of one bank.
  datatype View = View(source: Bits, reset: Bits, counter: Bits, mode: Bits, md: Bits)

  function ViewOf(b: Banks, r: Regs, second: bool): View {
    var m := b.Of(second);
    View(r.ns * m.nsMask, r.ns * m.rstMask, r.ctl * m.mndEnMask, r.ctl * m.modeMask, r.Md(second))
  }

  predicate SecondSelected(b: Banks, r: Regs) { r.ctl * b.selMask != {} }

  /** One write from r to r' leaves every field of the bank that was selected alone. */
  predicate KeepsSelected(b: Banks, r: Regs, r': Regs) {
    ViewOf(b, r', SecondSelected(b, r)) == ViewOf(b, r, SecondSelected(b, r))
  }

  /** The registers and everything ever written to them. */
  class BankedClock {
    const banks: Banks
    const parkNs: Bits  // the NS value of the first, low-power frequency
    var regs: Regs
    var log: seq<Regs>  // the register contents at the start and after each write
    var enabled: bool
    var currentHz: nat
    var nsMask: Bits

    constructor (banks: Banks, parkNs: Bits, regs: Regs)
      ensures this.banks == banks && this.parkNs == parkNs && this.regs == regs && Logged()
    {
      this.banks, this.parkNs, this.regs, log := banks, parkNs, regs, [regs];
      enabled, currentHz, nsMask := false, 0, {};
    }

    predicate Logged()
      reads this
    {
      log != [] && log[|log| - 1] == regs
    }

    method WriteNs(v: Bits)
      requires Logged()
      modifies this`regs, this`log
      ensures regs == old(regs).(ns := v) && log == old(log) + [regs]
    {
      regs := regs.(ns := v);
      log := log + [regs];
    }

    method WriteCtl(v: Bits)
      requires Logged()
      modifies this`regs, this`log
      ensures regs == old(regs).(ctl := v) && log == old(log) + [regs]
    {
      regs := regs.(ctl := v);
      log := log + [regs];
    }

    method WriteMd(second: bool, v: Bits)
      requires Logged()
      modifies this`regs, this`log
      ensures regs == (if second then old(regs).(md1 := v) else old(regs).(md0 := v)) && log == old(log) + [regs]
    {
      regs := if second then regs.(md1 := v) else regs.(md0 := v);
      log := log + [regs];
    }

    /** Every write from position n of the log on kept the bank selected before it. */
    ghost predicate KeptSince(n: nat)
      reads this
    {
      1 <= n <= |log| && forall k :: n <= k < |log| ==> KeepsSelected(banks, log[k - 1], log[k])
    }

    /** Change the rate. A clock that runs is programmed in its idle bank and switched over; one that does
        not run is programmed in the bank selected, its source only if it is enabled. */
    method SetRateMndBanked(nf: Freq) returns (mndEnMask: Bits)
      requires Disjoint(banks) && Logged()
      modifies this`regs, this`log, this`nsMask
      ensures Logged() && |old(log)| < |log| && log[..|old(log)|] == old(log)
      ensures Running() ==> KeptSince(|old(log)|)
      ensures SecondSelected(banks, regs) == if Running() then !old(SecondSelected(banks, regs))
                                              else old(SecondSelected(banks, regs))
      ensures var second := SecondSelected(banks, regs); var m := banks.Of(second);
        && ViewOf(banks, regs, second) ==
             View(if enabled then nf.nsVal * m.nsMask else old(regs).ns * m.nsMask, {},
                  if enabled then m.mndEnMask else {}, nf.ctlVal * m.modeMask, nf.mdVal)
        && nsMask == m.nsMask
        && mndEnMask == if nf.mndEnMask != {} then m.mndEnMask else {}
      ensures Running() ==> Parked(banks, regs, !SecondSelected(banks, regs), parkNs)
      ensures Untouched(banks, old(regs), regs, SecondSelected(banks, regs), Running())
    {
      hide ViewOf, Disjoint, Parked, KeepsSelected, Within, Untouched;
      var second := regs.ctl * banks.selMask != {};
      SelectBit(banks, regs);
      second := if enabled && currentHz != 0 then !second else second;
      ghost var r0 := regs;
      Program(nf, second);
      ghost var r1 := regs;
      if enabled && currentHz != 0 {
        Switch(second);
      }
      Composed(banks, r0, r1, regs, second, Running());
      mndEnMask := if nf.mndEnMask != {} then banks.Of(second).mndEnMask else {};
      nsMask := banks.Of(second).nsMask;
    }

    // Program a bank: hold its M/N counter in reset, set source, M/D and mode, let it go.
    method Program(nf: Freq, second: bool)
      requires Disjoint(banks) && Logged()
      modifies this`regs, this`log
      ensures Logged() && |old(log)| < |log| && log[..|old(log)|] == old(log)
      ensures SecondSelected(banks, regs) == old(SecondSelected(banks, regs))
      ensures old(SecondSelected(banks, regs)) == !second ==> KeptSince(|old(log)|)
      ensures var m := banks.Of(second);
        && ViewOf(banks, regs, second) ==
             View(if enabled then nf.nsVal * m.nsMask else old(regs).ns * m.nsMask, {},
                  if enabled then m.mndEnMask else {}, nf.ctlVal * m.modeMask, nf.mdVal)
        && Within(old(regs).ns, regs.ns, m.nsMask + m.rstMask)
        && Within(old(regs).ctl, regs.ctl, m.mndEnMask + m.modeMask)
        && regs.Md(!second) == old(regs).Md(!second)
    {
      hide KeepsSelected, Disjoint;
      var m := banks.Of(second);
      ghost var r0 := regs;
      MaskFacts(banks, second);
      var nsVal, ctlVal := regs.ns, regs.ctl;
      nsVal := nsVal + m.rstMask;
      NsKeeps(banks, regs, second, nsVal);
      WriteNs(nsVal);
      if enabled {
        nsVal := Field(nsVal, m.nsMask, nf.nsVal);
        NsKeeps(banks, regs, second, nsVal);
        WriteNs(nsVal);
      }
      MdKeeps(banks, regs, second, nf.mdVal);
      WriteMd(second, nf.mdVal);
      ctlVal := if enabled then ctlVal + m.mndEnMask else ctlVal - m.mndEnMask;
      ctlVal := Field(ctlVal, m.modeMask, nf.ctlVal);
      CtlKeeps(banks, regs, second, ctlVal);
      SameSelection(banks, regs, second, ctlVal);
      WriteCtl(ctlVal);
      nsVal := nsVal - m.rstMask;
      NsKeeps(banks, regs, second, nsVal);
      WriteNs(nsVal);
      Programmed(r0, m, nf, enabled);
    }

    // Flip the select bit, stop the counter of the bank left behind, and park its source.
    method Switch(second: bool)
      requires Disjoint(banks) && Logged() && SecondSelected(banks, regs) == !second
      modifies this`regs, this`log
      ensures Logged() && |old(log)| < |log| && log[..|old(log)|] == old(log)
      ensures SecondSelected(banks, regs) == second && KeptSince(|old(log)|)
      ensures ViewOf(banks, regs, second) == old(ViewOf(banks, regs, second)) && Parked(banks, regs, !second, parkNs)
      ensures var o := banks.Of(!second);
        && Within(old(regs).ns, regs.ns, o.nsMask) && Within(old(regs).ctl, regs.ctl, o.mndEnMask + banks.selMask)
        && regs.md0 == old(regs).md0 && regs.md1 == old(regs).md1
    {
      hide KeepsSelected, Disjoint;
      var o := banks.Of(!second);
      MaskFacts(banks, second);
      var nsVal, ctlVal := regs.ns, regs.ctl;
      ctlVal := Xor(ctlVal, banks.selMask);
      CtlKeeps(banks, regs, second, ctlVal);
      SelectFlips(banks, regs, ctlVal);
      WriteCtl(ctlVal);
      ctlVal := ctlVal - o.mndEnMask;
      CtlKeeps(banks, regs, !second, ctlVal);
      SameSelection(banks, regs, !second, ctlVal);
      WriteCtl(ctlVal);
      nsVal := Field(nsVal, o.nsMask, parkNs);
      NsKeeps(banks, regs, !second, nsVal);
      WriteNs(nsVal);
    }

    predicate Running()
      reads this
    {
      enabled && currentHz != 0
    }
  }

  function Field(v: Bits, mask: Bits, new_: Bits): Bits { (v - mask) + (new_ * mask) }

  ghost predicate Parked(b: Banks, r: Regs, second: bool, parkNs: Bits) {
    ViewOf(b, r, second).counter == {} && ViewOf(b, r, second).source == parkNs * b.Of(second).nsMask
  }

  /** Outside the fields of the new bank, and of the bank left when the clock was switched, nothing changed. */
  ghost predicate Untouched(b: Banks, r: Regs, r': Regs, second: bool, switched: bool) {
    var m, o := b.Of(second), b.Of(!second);
    && Within(r.ns, r'.ns, m.nsMask + m.rstMask + (if switched then o.nsMask else {}))
    && Within(r.ctl, r'.ctl, m.mndEnMask + m.modeMask + (if switched then o.mndEnMask + b.selMask else {}))
    && r'.Md(!second) == r.Md(!second)
  }

  /** v and w differ at most in the bits of mask. */
  ghost predicate Within(v: Bits, w: Bits, mask: Bits) { Xor(v, w) <= mask }

  // ----- what the masks say of one bank and the other -----

  lemma MaskFacts(b: Banks, second: bool)
    requires Disjoint(b)
    ensures var m, o := b.Of(second), b.Of(!second);
      && m.nsMask !! m.rstMask !! o.nsMask !! o.rstMask
      && m.mndEnMask !! m.modeMask !! o.mndEnMask !! o.modeMask !! b.selMask
  {
  }

  lemma SelectBit(b: Banks, r: Regs)
    ensures SecondSelected(b, r) <==> r.ctl * b.selMask != {}
  {
  }

  lemma SelectFlips(b: Banks, r: Regs, v: Bits)
    requires Disjoint(b) && v == Xor(r.ctl, b.selMask)
    ensures SecondSelected(b, r.(ctl := v)) == !SecondSelected(b, r)
  {
    var k :| k in b.selMask;
    assert |b.selMask - {k}| == 0;
    assert b.selMask == {k};
    assert k in v <==> k !in r.ctl;
  }

  lemma SameSelection(b: Banks, r: Regs, second: bool, v: Bits)
    requires Disjoint(b) && Within(r.ctl, v, b.Of(second).mndEnMask + b.Of(second).modeMask)
    ensures SecondSelected(b, r.(ctl := v)) == SecondSelected(b, r)
  {
    assert r.ctl * b.selMask == v * b.selMask;
  }

  lemma Composed(b: Banks, r0: Regs, r1: Regs, r2: Regs, second: bool, switched: bool)
    requires var m := b.Of(second);
      && Within(r0.ns, r1.ns, m.nsMask + m.rstMask) && Within(r0.ctl, r1.ctl, m.mndEnMask + m.modeMask)
      && r1.Md(!second) == r0.Md(!second)
    requires var o := b.Of(!second);
      if switched then
        && Within(r1.ns, r2.ns, o.nsMask) && Within(r1.ctl, r2.ctl, o.mndEnMask + b.selMask)
        && r2.Md(!second) == r1.Md(!second)
      else r2 == r1
    ensures Untouched(b, r0, r2, second, switched)
  {
  }

  lemma Programmed(r: Regs, m: Bank, nf: Freq, enabled: bool)
    requires m.nsMask !! m.rstMask && m.mndEnMask !! m.modeMask
    ensures var v := (if enabled then Field(r.ns + m.rstMask, m.nsMask, nf.nsVal) else r.ns + m.rstMask) - m.rstMask;
      && v * m.nsMask == (if enabled then nf.nsVal * m.nsMask else r.ns * m.nsMask)
      && v * m.rstMask == {} && Within(r.ns, v, m.nsMask + m.rstMask)
    ensures var w := Field(if enabled then r.ctl + m.mndEnMask else r.ctl - m.mndEnMask, m.modeMask, nf.ctlVal);
      && w * m.mndEnMask == (if enabled then m.mndEnMask else {})
      && w * m.modeMask == nf.ctlVal * m.modeMask && Within(r.ctl, w, m.mndEnMask + m.modeMask)
  {
  }

  /** A write to NS within the fields of one bank keeps the other. */
  lemma NsKeeps(b: Banks, r: Regs, second: bool, v: Bits)
    requires Disjoint(b) && Within(r.ns, v, b.Of(second).nsMask + b.Of(second).rstMask)
    ensures SecondSelected(b, r) == !second ==> KeepsSelected(b, r, r.(ns := v))
  {
    hide SecondSelected;
    var o := b.Of(!second);
    assert r.ns * o.nsMask == v * o.nsMask && r.ns * o.rstMask == v * o.rstMask;
  }

  /** So does a write to CC within one bank's fields and the select bit. */
  lemma CtlKeeps(b: Banks, r: Regs, second: bool, v: Bits)
    requires Disjoint(b) && Within(r.ctl, v, b.Of(second).mndEnMask + b.Of(second).modeMask + b.selMask)
    ensures SecondSelected(b, r) == !second ==> KeepsSelected(b, r, r.(ctl := v))
  {
    hide SecondSelected;
    var o := b.Of(!second);
    assert r.ctl * o.mndEnMask == v * o.mndEnMask && r.ctl * o.modeMask == v * o.modeMask;
  }

  lemma MdKeeps(b: Banks, r: Regs, second: bool, v: Bits)
    ensures SecondSelected(b, r) == !second ==>
      KeepsSelected(b, r, if second then r.(md1 := v) else r.(md0 := v))
  {
    hide SecondSelected;
  }
}
