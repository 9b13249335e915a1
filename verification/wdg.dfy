/**
 * The watchdog driver of ameba_wdg.c: the search for a count/divisor pair that
 * covers a timeout, and the updates of the VENDOR control word.
 */
module Wdg {

  import opened Bits

  /** Largest CountId tried (exclusive bound of the search). */
  const CountIds: nat := 12
  /** Initial value of the running minimum. */
  const NoMinimum: nat := 0xFFFF_FFFF

  /** Count selected by CountId: 2^(CountId+1) - 1, i.e. 1, 3, 7, ..., 4095. */
  function Count(id: nat): (c: nat)
    requires id < CountIds
    ensures 1 <= c <= 4095
    ensures c + 1 == Pow2(id + 1)
    ensures id > 0 ==> c == 2 * Count(id - 1) + 1
  {
    Pow2Mono(id + 1, CountIds);
    assert Pow2(CountIds) == 4096;
    if id == 0 then 1 else 2 * Count(id - 1) + 1
  }

  /** `100 * Period` as the u32 PeriodProcess. */
  function PeriodProcess(period: nat): nat {
    Wrap32(100 * period)
  }

  /** DivFactor for a CountId: the quotient truncated to u16. */
  function DivFactor(pp: nat, id: nat): (d: nat)
    requires id < CountIds
    ensures d < U16
  {
    Wrap16(pp / (Count(id) * 3))
  }

  /** The timeout a candidate really gives, 3 * (DivFactor + 1) * Count. */
  function PeriodOf(pp: nat, id: nat): (p: nat)
    requires id < CountIds
    ensures p <= 3 * U16 * 4095 < NoMinimum
  {
    MulLe(DivFactor(pp, id) + 1, U16, Count(id), 4095);
    3 * ((DivFactor(pp, id) + 1) * Count(id))
  }

  /** A candidate is accepted when its divisor is non-zero and it covers the timeout. */
  predicate Accepted(pp: nat, id: nat)
    requires id < CountIds
  {
    DivFactor(pp, id) > 0 && pp < PeriodOf(pp, id)
  }

  /** The pair WDG_Scalar writes through its two output pointers. */
  datatype Choice = Choice(countId: nat, divFactor: nat)

  /** What the loop computes for one CountId. */
  datatype Candidate = Candidate(divFactor: nat, period: nat, accepted: bool)

  /** The candidates for CountId = 0 .. 11, in the order the loop tries them. */
  function Candidates(pp: nat): (cs: seq<Candidate>)
    ensures |cs| == CountIds
    ensures forall j :: 0 <= j < CountIds ==> cs[j] == Candidate(DivFactor(pp, j), PeriodOf(pp, j), Accepted(pp, j))
  {
    seq(CountIds, j requires 0 <= j < CountIds => Candidate(DivFactor(pp, j), PeriodOf(pp, j), Accepted(pp, j)))
  }

  /** The running minimum of the loop and the pair written so far. */
  datatype SearchState = SearchState(minP: nat, chosen: Option<Choice>)

  const Start: SearchState := SearchState(NoMinimum, None)

  /** One iteration of the WDG_Scalar loop, on candidate `id`. */
  function SearchStep(cs: seq<Candidate>, id: nat, st: SearchState): SearchState
    requires id < |cs|
  {
    if cs[id].accepted && st.minP > cs[id].period then
      SearchState(cs[id].period, Some(Choice(id, cs[id].divFactor)))
    else st
  }

  /** The iterations from candidate `id` to the end. */
  function Search(cs: seq<Candidate>, id: nat, st: SearchState): SearchState
    requires id <= |cs|
    decreases |cs| - id
  {
    if id == |cs| then st else Search(cs, id + 1, SearchStep(cs, id, st))
  }

  /** WDG_Scalar; None means that neither output is written. */
  function Scalar(period: nat): Option<Choice> {
    Search(Candidates(PeriodProcess(period)), 0, Start).chosen
  }

  /**
   * What the loop state means after the candidates below `id`: nothing chosen
   * iff none accepted, otherwise an accepted one with the least period, the
   * earliest among equals.
   */
  ghost predicate SearchInv(cs: seq<Candidate>, id: nat, st: SearchState)
    requires id <= |cs|
  {
    && (st.chosen.None? <==> forall j :: 0 <= j < id ==> !cs[j].accepted)
    && (st.chosen.None? ==> st.minP == NoMinimum)
    && (st.chosen.Some? ==>
      && st.chosen.value.countId < id
      && cs[st.chosen.value.countId].accepted
      && st.chosen.value.divFactor == cs[st.chosen.value.countId].divFactor
      && st.minP == cs[st.chosen.value.countId].period
      && (forall j :: 0 <= j < id && cs[j].accepted ==> st.minP <= cs[j].period)
      && (forall j :: 0 <= j < st.chosen.value.countId && cs[j].accepted ==> st.minP < cs[j].period))
  }

  lemma SearchStepInv(cs: seq<Candidate>, id: nat, st: SearchState)
    requires id < |cs|
    requires forall j :: 0 <= j < |cs| ==> cs[j].period < NoMinimum
    requires SearchInv(cs, id, st)
    ensures SearchInv(cs, id + 1, SearchStep(cs, id, st))
  {
    var st' := SearchStep(cs, id, st);
    if cs[id].accepted && st.minP > cs[id].period {
      assert forall j :: 0 <= j < id && cs[j].accepted ==> st'.minP < cs[j].period;
    } else {
      assert cs[id].accepted ==> st.chosen.Some?;
    }
  }

  lemma {:induction false} SearchCorrect(cs: seq<Candidate>, id: nat, st: SearchState)
    requires id <= |cs|
    requires forall j :: 0 <= j < |cs| ==> cs[j].period < NoMinimum
    requires SearchInv(cs, id, st)
    ensures SearchInv(cs, |cs|, Search(cs, id, st))
    decreases |cs| - id
  {
    if id < |cs| {
      SearchStepInv(cs, id, st);
      SearchCorrect(cs, id + 1, SearchStep(cs, id, st));
    }
  }

  /**
   * WDG_Scalar chooses, among the accepted CountIds, one whose real timeout
   * 3 * (DivFactor + 1) * Count is smallest, and the lowest such CountId; it
   * chooses nothing exactly when no CountId is accepted.
   */
  lemma ScalarIsEarliestMinimum(period: nat)
    ensures var pp := PeriodProcess(period);
      var r := Scalar(period);
      && (r.None? <==> forall j :: 0 <= j < CountIds ==> !Accepted(pp, j))
      && (r.Some? ==>
        && r.value.countId < CountIds
        && r.value.divFactor == DivFactor(pp, r.value.countId)
        && r.value.divFactor > 0
        && pp < PeriodOf(pp, r.value.countId)
        && (forall j :: 0 <= j < CountIds && Accepted(pp, j) ==> PeriodOf(pp, r.value.countId) <= PeriodOf(pp, j))
        && (forall j :: 0 <= j < r.value.countId && Accepted(pp, j) ==> PeriodOf(pp, r.value.countId) < PeriodOf(pp, j)))
  {
    var cs := Candidates(PeriodProcess(period));
    SearchCorrect(cs, 0, Start);
  }

  /** A zero period has no accepted CountId, so neither output is written. */
  lemma ScalarZero()
    ensures Scalar(0).None?
  {
    forall j | 0 <= j < CountIds ensures !Accepted(0, j) {
      assert DivFactor(0, j) == 0;
    }
    ScalarIsEarliestMinimum(0);
  }

  /** For 5 ms (PeriodProcess 500) every CountId above 0 gives a period above 501. */
  lemma PeriodsFor500(j: nat)
    requires 0 < j < CountIds
    ensures PeriodOf(500, j) > 501
  {
    if j <= 4 { PeriodsFor500Low(j); } else { PeriodsFor500High(j); }
  }

  lemma PeriodsFor500Low(j: nat)
    requires 0 < j <= 4
    ensures PeriodOf(500, j) > 501
  {
    assert Count(1) == 3 && Count(2) == 7 && Count(3) == 15 && Count(4) == 31;
    if j == 1 { PeriodIs(500, 1, 3, 55); }
    else if j == 2 { PeriodIs(500, 2, 7, 23); }
    else if j == 3 { PeriodIs(500, 3, 15, 11); }
    else { PeriodIs(500, 4, 31, 5); }
  }

  /** PeriodOf from a known count and the quotient it gives. */
  lemma PeriodIs(pp: nat, id: nat, c: nat, q: nat)
    requires id < CountIds && Count(id) == c && pp / (3 * c) == q < U16
    ensures PeriodOf(pp, id) == 3 * ((q + 1) * c)
  {
    assert Count(id) * 3 == 3 * c;
  }

  lemma PeriodsFor500High(j: nat)
    requires 4 < j < CountIds
    ensures PeriodOf(500, j) > 501
  {
    if j == 5 {
      assert Count(5) == 63;
      PeriodIs(500, 5, 63, 2);
    } else if j == 6 {
      assert Count(6) == 127;
      PeriodIs(500, 6, 127, 1);
    } else {
      assert Count(7) == 255;
      CountGrows(7, j);
      PeriodAtLeast(500, j, 255);
    }
  }

  /** A count of at least `c` gives a period of at least 3 * c. */
  lemma PeriodAtLeast(pp: nat, id: nat, c: nat)
    requires id < CountIds && Count(id) >= c
    ensures PeriodOf(pp, id) >= 3 * c
  {
    MulLe(1, DivFactor(pp, id) + 1, c, Count(id));
  }

  /** Count grows with CountId. */
  lemma {:induction false} CountGrows(i: nat, j: nat)
    requires i <= j < CountIds
    ensures Count(i) <= Count(j)
    decreases j - i
  {
    if i < j {
      CountGrows(i, j - 1);
      assert Count(j) == 2 * Count(j - 1) + 1;
    }
  }

  /** WDG_Reset asks for 5 ms: CountId 0 with DivFactor 166 (a 5.01 ms timeout). */
  lemma ScalarForReset()
    ensures Scalar(5) == Some(Choice(0, 166))
  {
    ScalarIsEarliestMinimum(5);
    assert PeriodProcess(5) == 500;
    assert Count(0) == 1 && 500 / (1 * 3) == 166;
    assert DivFactor(500, 0) == 166;
    assert Accepted(500, 0) && PeriodOf(500, 0) == 501;
    var r := Scalar(5);
    assert r.Some?;
    var id := r.value.countId;
    assert PeriodOf(500, id) == 501;
    if id != 0 {
      PeriodsFor500(id);
    }
  }

  // ---------------------------------------------------------------------------
  // VENDOR word updates
  // ---------------------------------------------------------------------------

  // The WDG_BIT_* masks (CLEAR, RST_MODE, ISR_CLEAR, ENABLE) are defined in a
  // header outside this model; they are parameters of the functions below.

  /** The WdgEnByte field cleared by WDG_Init. */
  const EnByteMask: bv32 := 0x00FF_0000

  /** WDG_Init: the VENDOR word built from the divisor and the count id. */
  function InitWord(divFac: bv32, countId: bv32, clear: bv32, rstMode: bv32, isrClear: bv32): bv32 {
    (((divFac & 0xFFFF) & !EnByteMask) | ((countId & 0xF) << 25)) | clear | rstMode | isrClear
  }

  /**
   * The WDG_Init word carries the low 16 bits of the divisor, the low 4 bits
   * of the count id at bit 25, and the three flags; WdgEnByte (bits 16-23)
   * holds only what the flags put there, and nothing else is set.
   */
  lemma InitWordFields(divFac: bv32, countId: bv32, clear: bv32, rstMode: bv32, isrClear: bv32)
    ensures var w := InitWord(divFac, countId, clear, rstMode, isrClear);
      var flags := clear | rstMode | isrClear;
      && w & flags == flags
      && w & EnByteMask == flags & EnByteMask
      && w & 0xFFFF == (divFac & 0xFFFF) | (flags & 0xFFFF)
      && (w >> 25) & 0xF == (countId & 0xF) | ((flags >> 25) & 0xF)
      && w & !(flags | 0xFFFF | (0xF << 25)) == 0
  {
  }

  /** WDG_Init's update of REG_LP_KM0_CTRL: BIT_LSYS_WDT_RESET_HS_ALL follows RstAllPERI. */
  function Km0CtrlWord(temp: bv32, rstAllPeri: bv32, resetHsAll: bv32): (w: bv32)
    ensures w & !resetHsAll == temp & !resetHsAll
    ensures w & resetHsAll == if rstAllPeri == 0 then 0 else resetHsAll
  {
    if rstAllPeri == 0 then temp & !resetHsAll else temp | resetHsAll
  }

  /** WDG_IrqClear: sets ISR_CLEAR and keeps every other bit. */
  function IrqClear(v: bv32, isrClear: bv32): (w: bv32)
    ensures w & isrClear == isrClear && w & !isrClear == v & !isrClear
  {
    v | isrClear
  }

  /** WDG_Refresh: sets CLEAR and keeps every other bit. */
  function Refresh(v: bv32, clear: bv32): (w: bv32)
    ensures w & clear == clear && w & !clear == v & !clear
  {
    v | clear
  }

  /** The first VENDOR write of WDG_Cmd: only ENABLE changes. */
  function CmdWord(v: bv32, enable: bool, enableBit: bv32): (w: bv32)
    ensures w & !enableBit == v & !enableBit
    ensures w & enableBit == if enable then enableBit else 0
  {
    if enable then v | enableBit else v & !enableBit
  }

  /**
   * WDG_Cmd: the ENABLE update, then WDG_IrqClear's write.  WDG_IrqClear reads
   * VENDOR again; that read is taken to return the word just written.
   */
  function Cmd(v: bv32, enable: bool, enableBit: bv32, isrClear: bv32): (writes: seq<bv32>)
    ensures |writes| == 2 && writes[0] == CmdWord(v, enable, enableBit)
    ensures writes[1] == IrqClear(writes[0], isrClear)
  {
    var w := CmdWord(v, enable, enableBit);
    [w, IrqClear(w, isrClear)]
  }

  /** The first VENDOR write of WDG_Enable: ISR_CLEAR and ENABLE set, RST_MODE cleared. */
  function EnableWord(v: bv32, rstMode: bv32, isrClear: bv32, enableBit: bv32): bv32 {
    ((v | isrClear) & !rstMode) | enableBit
  }

  /** WDG_Enable: the mode/enable update, then WDG_IrqClear's write, read back as for Cmd. */
  function Enable(v: bv32, rstMode: bv32, isrClear: bv32, enableBit: bv32): (writes: seq<bv32>)
    ensures |writes| == 2 && writes[0] == EnableWord(v, rstMode, isrClear, enableBit)
    ensures writes[1] == IrqClear(writes[0], isrClear)
  {
    var w := EnableWord(v, rstMode, isrClear, enableBit);
    [w, IrqClear(w, isrClear)]
  }

  /**
   * WDG_Enable switches to interrupt mode: RST_MODE ends clear unless it shares
   * a bit with ENABLE, ISR_CLEAR and ENABLE end set, other bits are kept.
   */
  lemma EnableWordBits(v: bv32, rstMode: bv32, isrClear: bv32, enableBit: bv32)
    ensures var w := EnableWord(v, rstMode, isrClear, enableBit);
      && w & rstMode == enableBit & rstMode
      && w & enableBit == enableBit
  {
  }

  /** WDG_Enable keeps every bit other than RST_MODE, ISR_CLEAR and ENABLE. */
  lemma EnableWordFrame(v: bv32, rstMode: bv32, isrClear: bv32, enableBit: bv32)
    ensures var w := EnableWord(v, rstMode, isrClear, enableBit);
      w & !(rstMode | isrClear | enableBit) == v & !(rstMode | isrClear | enableBit)
  {
  }

  /** The VENDOR update of WDG_IrqInit: ISR_CLEAR set, RST_MODE cleared (interrupt mode). */
  function IrqInitWord(v: bv32, rstMode: bv32, isrClear: bv32): bv32 {
    (v | isrClear) & !rstMode
  }

  lemma IrqInitWordBits(v: bv32, rstMode: bv32, isrClear: bv32)
    ensures var w := IrqInitWord(v, rstMode, isrClear);
      && w & rstMode == 0
      && w & isrClear == isrClear & !rstMode
      && w & !(rstMode | isrClear) == v & !(rstMode | isrClear)
  {
  }

  /** Refresh is idempotent: a second refresh writes the same word. */
  lemma RefreshIdempotent(v: bv32, clear: bv32)
    ensures Refresh(Refresh(v, clear), clear) == Refresh(v, clear)
  {
  }

  /** Enabling and then disabling with WDG_Cmd clears ENABLE and restores every other bit. */
  lemma CmdEnableDisable(v: bv32, enableBit: bv32)
    ensures CmdWord(CmdWord(v, true, enableBit), false, enableBit) == v & !enableBit
  {
  }
}
