/**
 * The audio PLL helpers of ameba_pll.c: the CTRL3 field updates of PLL_Div and
 * PLL_Sel, the ENABLE/DISABLE decisions of PLL_I2S_Set and PLL_PCM_Set, and the
 * fine-tune arithmetic of PLL_I2S_ClkTune and PLL_PCM_ClkTune.
 *
 * Register masks, shifts and the PLL_* selector values come from headers that
 * are not part of this model and are parameters.  Each register read returns
 * the value last written, so a read-modify-write sequence is a sequence of
 * words.
 */
module Pll {

  import opened Bits

  /** Bit 2 of PLL_*_CTRL0: the auto/manual fine-tune mode. */
  const AutoModeBit: bv32 := 0x4
  /** Largest ppm the tune functions accept (assert_param). */
  const MaxPpm: nat := 100

  /** `x << shift`: a field mask or value moved to its place in the register. */
  function Place(x: bv32, shift: bv32): bv32
    requires shift < 32
  {
    x << shift
  }

  /**
   * The read-modify-write every helper here performs: clear the bits of
   * `field` in `tmp`, then OR in `bits` (which the C code does not mask).
   */
  function SetField(tmp: bv32, field: bv32, bits: bv32): bv32 {
    (tmp & !field) | bits
  }

  /** Bits that fit the field read back from it, and every bit outside the field is kept. */
  lemma SetFieldBits(tmp: bv32, field: bv32, bits: bv32)
    requires bits & !field == 0
    ensures SetField(tmp, field, bits) & field == bits
    ensures SetField(tmp, field, bits) & !field == tmp & !field
  {
  }

  /** Whatever `bits` holds, bits outside both the field and `bits` are kept. */
  lemma SetFieldFrame(tmp: bv32, field: bv32, bits: bv32)
    ensures SetField(tmp, field, bits) & !(field | bits) == tmp & !(field | bits)
  {
  }

  /** A value that fits the unshifted mask also fits the field once both are placed. */
  lemma PlaceFits(value: bv32, mask: bv32, shift: bv32)
    requires shift < 32 && value & !mask == 0
    ensures Place(value, shift) & !Place(mask, shift) == 0
  {
  }

  /** Because `div` is not masked, a too-wide divider spills into the bits above the field. */
  lemma DivSpills()
    ensures Div(0, 0x7, 0x3, 0) == 0x7
    ensures Div(0, 0x7, 0x3, 0) & !Place(0x3, 0) != 0
  {
  }

  /** PLL_Div: the new CTRL3 word with the I2S clock divider field replaced. */
  function Div(ctrl3: bv32, div: bv32, divMask: bv32, divShift: bv32): bv32
    requires divShift < 32
  {
    SetField(ctrl3, Place(divMask, divShift), Place(div, divShift))
  }

  /** The PLL_PCM and PLL_I2S selector values. */
  datatype Selectors = Selectors(pcm: bv32, i2s: bv32)

  /** PLL_Sel: a CTRL3 write only for the two known selectors, otherwise none. */
  function Sel(ctrl3: bv32, sel: bv32, s: Selectors, cksMask: bv32, cksShift: bv32): (w: seq<bv32>)
    requires cksShift < 32
    ensures |w| <= 1
    ensures |w| == 1 <==> sel == s.pcm || sel == s.i2s
    ensures |w| == 1 ==> w[0] == SetField(ctrl3, Place(cksMask, cksShift), Place(sel, cksShift))
  {
    if sel == s.pcm || sel == s.i2s then [SetField(ctrl3, Place(cksMask, cksShift), Place(sel, cksShift))] else []
  }

  // ---------------------------------------------------------------------------
  // PLL_I2S_Set / PLL_PCM_Set
  // ---------------------------------------------------------------------------

  /** The CTRL0 enable bits of one PLL. */
  datatype EnableBits = EnableBits(clkEn: bv32, div2En: bv32, en: bv32, divEn: bv32)

  /** What a Set call does. */
  datatype SetAction =
    | AlreadyReady            // ENABLE with RDY already set: return at once
    | PowerUp                 // ENABLE: the power-up sequence (not modelled)
    | Disable(ctrl0: bv32)    // any other state: the CTRL0 word written

  /** The CTRL0 word written on disable: CLK_EN, DIV2_EN, EN and DIV_EN cleared. */
  function DisableWord(ctrl0: bv32, clkEn: bv32, div2En: bv32, en: bv32, divEn: bv32): bv32 {
    ctrl0 & !(clkEn | div2En | en | divEn | divEn)
  }

  lemma DisableWordBits(ctrl0: bv32, clkEn: bv32, div2En: bv32, en: bv32, divEn: bv32)
    ensures var w := DisableWord(ctrl0, clkEn, div2En, en, divEn);
      && w & (clkEn | div2En | en | divEn) == 0
      && w & !(clkEn | div2En | en | divEn) == ctrl0 & !(clkEn | div2En | en | divEn)
  {
  }

  /** PLL_I2S_Set and PLL_PCM_Set (the same code over each PLL's bits). */
  function Set(newState: bv32, enable: bv32, pllTest: bv32, rdy: bv32, ctrl0: bv32, b: EnableBits): (a: SetAction)
    ensures a.AlreadyReady? <==> newState == enable && pllTest & rdy != 0
    ensures a.PowerUp? <==> newState == enable && pllTest & rdy == 0
    ensures a.Disable? ==> a.ctrl0 == DisableWord(ctrl0, b.clkEn, b.div2En, b.en, b.divEn)
  {
    if enable == newState then
      if pllTest & rdy != 0 then AlreadyReady else PowerUp
    else Disable(DisableWord(ctrl0, b.clkEn, b.div2En, b.en, b.divEn))
  }

  // ---------------------------------------------------------------------------
  // PLL_I2S_ClkTune / PLL_PCM_ClkTune
  // ---------------------------------------------------------------------------

  /** The `action` argument: PLL_AUTO, PLL_FASTER, PLL_SLOWER or any other value. */
  datatype Action = Auto | Faster | Slower | Other

  /** The constants that differ between the I2S and the PCM PLL. */
  datatype TuneConsts = TuneConsts(fofBase: nat, num: nat, den: nat, divN: bv32, fon: bv32)

  /** I2S: FOF 0x92a +- ppm * 4 / 3, div.N 0x11, FON 5. */
  const I2S: TuneConsts := TuneConsts(0x92a, 4, 3, 0x11, 0x5)
  /** PCM: FOF 0x1038 +- ppm * 6 / 5, div.N 0x10, FON 0. */
  const PCM: TuneConsts := TuneConsts(0x1038, 6, 5, 0x10, 0x0)

  predicate ValidConsts(k: TuneConsts) {
    k.den > 0 && MaxPpm * k.num / k.den <= k.fofBase
  }

  /** The FOF step for `ppm`: multiply before the integer divide; at most the step for MaxPpm. */
  function Delta(ppm: nat, num: nat, den: nat): (d: nat)
    requires ppm <= MaxPpm && den > 0
    ensures d <= MaxPpm * num / den
  {
    DivMonoNat(ppm, MaxPpm, num, den);
    ppm * num / den
  }

  /** The new FOF: base plus or minus the step; no underflow for ppm <= 100. */
  function Fof(k: TuneConsts, ppm: nat, action: Action): (f: nat)
    requires ValidConsts(k) && ppm <= MaxPpm && action != Auto
    ensures action == Faster ==> f == k.fofBase + Delta(ppm, k.num, k.den)
    ensures action == Slower ==> f + Delta(ppm, k.num, k.den) == k.fofBase
    ensures action == Other ==> f == k.fofBase
    ensures f <= k.fofBase + MaxPpm * k.num / k.den
  {
    var d := Delta(ppm, k.num, k.den);
    if action == Faster then k.fofBase + d
    else if action == Slower then k.fofBase - d
    else k.fofBase
  }

  lemma DivMono(a: nat, b: nat, n: nat, d: nat)
    requires a <= b && d > 0
    ensures a * n / d <= b * n / d
  {
    MulLe(a, b, n, n);
    DivLe(a * n, b * n, d);
  }

  /** The same, with the quotient known to be a natural number. */
  lemma DivMonoNat(a: nat, b: nat, n: nat, d: nat)
    requires a <= b && d > 0
    ensures 0 <= a * n / d <= b * n / d
  {
    MulLe(0, a, 0, n);
    DivMono(a, b, n, d);
  }

  lemma ConstsValid()
    ensures ValidConsts(I2S) && ValidConsts(PCM)
  {
  }

  /**
   * FOF ranges: I2S stays within 0x92a +- 133 and PCM within 0x1038 +- 120;
   * faster and slower move by the same amount in opposite directions.
   */
  lemma FofRanges(ppm: nat)
    requires ppm <= MaxPpm
    ensures 0x92a - 133 <= Fof(I2S, ppm, Slower) <= 0x92a <= Fof(I2S, ppm, Faster) <= 0x92a + 133
    ensures 0x1038 - 120 <= Fof(PCM, ppm, Slower) <= 0x1038 <= Fof(PCM, ppm, Faster) <= 0x1038 + 120
    ensures Fof(I2S, ppm, Faster) - 0x92a == 0x92a - Fof(I2S, ppm, Slower)
    ensures Fof(PCM, ppm, Faster) - 0x1038 == 0x1038 - Fof(PCM, ppm, Slower)
  {
    DivMono(ppm, MaxPpm, 4, 3);
    DivMono(ppm, MaxPpm, 6, 5);
  }

  /** FOF_new as the u32 it is stored in; the second requires says it fits. */
  function FofWord(k: TuneConsts, ppm: nat, action: Action): bv32
    requires ValidConsts(k) && ppm <= MaxPpm && action != Auto
    requires k.fofBase + MaxPpm * k.num / k.den < 0x1_0000_0000
  {
    Fof(k, ppm, action) as bv32
  }

  /** The register masks and shifts the tune sequence uses. */
  datatype TuneLayout = TuneLayout(
    divnMask: bv32, divnShift: bv32,
    fonMask: bv32, fonShift: bv32,
    fofMask: bv32, fofShift: bv32,
    trig: bv32)
  {
    predicate Valid() { divnShift < 32 && fonShift < 32 && fofShift < 32 }
  }

  /** A PLL register write in program order. */
  datatype PllWrite = Ctrl0(v: bv32) | Ctrl1(v: bv32) | Ctrl3(v: bv32)

  /** The CTRL3 word: FON and FOF fields cleared, then FOF and FON ORed in. */
  function Ctrl3Word(ctrl3: bv32, fof: bv32, fon: bv32, l: TuneLayout): bv32
    requires l.Valid()
  {
    SetField(ctrl3, Place(l.fonMask, l.fonShift) | Place(l.fofMask, l.fofShift),
             Place(fof, l.fofShift) | Place(fon, l.fonShift))
  }

  /**
   * PLL_*_ClkTune.  `ctrl0`, `ctrl1`, `ctrl3` are the register values read.
   * Auto mode writes CTRL0 with bit 2 set and nothing else; otherwise the
   * sequence is: CTRL0 with bit 2 cleared, CTRL1 with div.N set, CTRL3 with
   * the new FON/FOF, then CTRL1 with TRIG_RREQ_EN set and cleared again.
   * Each later read of CTRL1 is taken to return the word last written to it.
   */
  function ClkTune(k: TuneConsts, l: TuneLayout, ppm: nat, action: Action,
                   ctrl0: bv32, ctrl1: bv32, ctrl3: bv32): (w: seq<PllWrite>)
    requires ValidConsts(k) && l.Valid() && ppm <= MaxPpm
    requires k.fofBase + MaxPpm * k.num / k.den < 0x1_0000_0000
    ensures action == Auto ==> w == [Ctrl0(ctrl0 | AutoModeBit)]
    ensures action != Auto ==> |w| == 5 && w[0] == Ctrl0(ctrl0 & !AutoModeBit)
    ensures action != Auto ==> w[1] == Ctrl1(SetField(ctrl1, Place(l.divnMask, l.divnShift), Place(k.divN, l.divnShift)))
    ensures action != Auto ==> w[2] == Ctrl3(Ctrl3Word(ctrl3, FofWord(k, ppm, action), k.fon, l))
    ensures action != Auto ==> w[3] == Ctrl1(w[1].v | l.trig)
    ensures action != Auto ==> w[4] == Ctrl1(w[1].v & !l.trig)
  {
    if action == Auto then [Ctrl0(ctrl0 | AutoModeBit)]
    else
      var c1 := SetField(ctrl1, Place(l.divnMask, l.divnShift), Place(k.divN, l.divnShift));
      ManualWrites(ctrl0, c1, Ctrl3Word(ctrl3, FofWord(k, ppm, action), k.fon, l), l.trig)
  }

  /**
   * The manual-mode writes once the new CTRL1 and CTRL3 words are known: the
   * trigger write re-reads CTRL1 as written and the last write clears the
   * trigger bit again.
   */
  function ManualWrites(ctrl0: bv32, c1: bv32, c3: bv32, trig: bv32): (w: seq<PllWrite>)
    ensures |w| == 5 && w[0] == Ctrl0(ctrl0 & !AutoModeBit) && w[1] == Ctrl1(c1) && w[2] == Ctrl3(c3)
    ensures w[3] == Ctrl1(c1 | trig) && w[4] == Ctrl1(c1 & !trig)
  {
    TrigPulse(c1, trig);
    [Ctrl0(ctrl0 & !AutoModeBit), Ctrl1(c1), Ctrl3(c3), Ctrl1(c1 | trig), Ctrl1((c1 | trig) & !trig)]
  }

  /** Pulsing TRIG_RREQ_EN leaves CTRL1 as it was apart from clearing TRIG_RREQ_EN. */
  lemma TrigPulse(c1: bv32, trig: bv32)
    ensures (c1 | trig) & !trig == c1 & !trig
  {
  }
}
