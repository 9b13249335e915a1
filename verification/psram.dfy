/**
 * PSRAM controller helpers of the AmebaD HP core: the software timing-window
 * calibration, the command/address generator for direct-pin access and the
 * DRR timing arithmetic of the controller initialisation.
 *
 * Hardware is abstracted: the PHY register reads are inputs, register writes are
 * returned as a trace, and the result of the per-N pattern test is an oracle
 * `pass` with one entry per candidate N.
 */
module Psram {

  import opened Bits

  /** Number of N values swept by the calibration (PSRAM_CALIB_N_MAX). */
  const CalibNMax: nat := 32
  /** Smallest window that is accepted. */
  const MinWindow: nat := 9
  /** Bits of CAL_PARA replaced by the final J/JMAX/N word. */
  const CalFieldMask: bv32 := 0xfffff

  /**
   * Bit layout of the PHY calibration registers.  The values live in a header
   * that is not part of this model, so they are a parameter.
   */
  datatype CalLayout = CalLayout(nMask: bv32, nShift: nat, jShift: nat, jmaxShift: nat, calEn: bv32)
  {
    predicate Valid() {
      nShift < 32 && jShift < 32 && jmaxShift < 32
    }
  }

  /** A window of N values: start, size and end as the C code keeps them (-1 means none). */
  datatype Window = Window(start: int, size: int, end: int)

  const NoWindow: Window := Window(-1, 0, -1)

  /** A write to one of the two PHY registers, in program order. */
  datatype PhyWrite = CalPara(value: bv32) | CalCtrl(value: bv32)

  // ---------------------------------------------------------------------------
  // Reference definition of the window the sweep must find
  // ---------------------------------------------------------------------------

  /** Length of the run of passing N values that ends at index i (0 if N = i fails). */
  ghost function RunAt(pass: seq<bool>, i: int): nat
    requires i < |pass|
    decreases i + 1
  {
    if i < 0 || !pass[i] then 0 else 1 + RunAt(pass, i - 1)
  }

  /** Longest run ending before index n. */
  ghost function Longest(pass: seq<bool>, n: nat): nat
    requires n <= |pass|
  {
    if n == 0 then 0
    else if RunAt(pass, n - 1) > Longest(pass, n - 1) then RunAt(pass, n - 1)
    else Longest(pass, n - 1)
  }

  /** End index of the earliest longest run before n, or -1 when nothing passes. */
  ghost function FirstLongestEnd(pass: seq<bool>, n: nat): int
    requires n <= |pass|
  {
    if n == 0 then -1
    else if RunAt(pass, n - 1) > Longest(pass, n - 1) then n - 1
    else FirstLongestEnd(pass, n - 1)
  }

  /** The window the calibration is meant to find among the first n values. */
  ghost function BestWindow(pass: seq<bool>, n: nat): Window
    requires n <= |pass|
  {
    var l := Longest(pass, n);
    if l == 0 then NoWindow
    else
      var e := FirstLongestEnd(pass, n);
      Window(e - l + 1, l, e)
  }

  ghost predicate AllPass(pass: seq<bool>, s: int, e: int)
    requires 0 <= s && e < |pass|
  {
    forall k :: s <= k <= e ==> pass[k]
  }

  // ---------------------------------------------------------------------------
  // Facts about the reference definition
  // ---------------------------------------------------------------------------

  lemma {:induction false} RunAtCoversRun(pass: seq<bool>, s: int, e: int)
    requires 0 <= s <= e < |pass|
    requires AllPass(pass, s, e)
    ensures RunAt(pass, e) >= e - s + 1
    decreases e - s
  {
    if e > s {
      RunAtCoversRun(pass, s, e - 1);
    }
  }

  lemma {:induction false} RunAtIsRun(pass: seq<bool>, e: int)
    requires 0 <= e < |pass|
    ensures RunAt(pass, e) <= e + 1
    ensures AllPass(pass, e - RunAt(pass, e) + 1, e)
    ensures e - RunAt(pass, e) < 0 || !pass[e - RunAt(pass, e)]
    decreases e
  {
    if pass[e] && e > 0 {
      RunAtIsRun(pass, e - 1);
    }
  }

  lemma {:induction false} LongestBounds(pass: seq<bool>, n: nat, i: int)
    requires n <= |pass| && 0 <= i < n
    ensures RunAt(pass, i) <= Longest(pass, n)
  {
    if i < n - 1 {
      LongestBounds(pass, n - 1, i);
    }
  }

  lemma {:induction false} FirstLongestEndFacts(pass: seq<bool>, n: nat)
    requires n <= |pass|
    ensures Longest(pass, n) == 0 <==> FirstLongestEnd(pass, n) == -1
    ensures Longest(pass, n) > 0 ==>
      0 <= FirstLongestEnd(pass, n) < n && RunAt(pass, FirstLongestEnd(pass, n)) == Longest(pass, n)
    ensures forall i :: 0 <= i < FirstLongestEnd(pass, n) ==> RunAt(pass, i) < Longest(pass, n)
    ensures Longest(pass, n) == 0 ==> forall i :: 0 <= i < n ==> RunAt(pass, i) == 0
  {
    if n > 0 {
      FirstLongestEndFacts(pass, n - 1);
      forall i | 0 <= i < n - 1 ensures RunAt(pass, i) <= Longest(pass, n - 1) {
        LongestBounds(pass, n - 1, i);
      }
    }
  }

  /**
   * The reference window is the earliest longest run of passing values: every
   * value in it passes, it cannot be extended, no run is longer and no equally
   * long run starts earlier.  With no passing value it is (-1, 0, -1).
   */
  lemma BestWindowIsEarliestLongestRun(pass: seq<bool>)
    requires |pass| == CalibNMax as int
    ensures var w := BestWindow(pass, |pass|);
      && (w.size == 0 <==> forall k :: 0 <= k < |pass| ==> !pass[k])
      && (w.size == 0 ==> w == NoWindow)
      && (w.size > 0 ==>
        && 0 <= w.start <= w.end < |pass|
        && w.end - w.start + 1 == w.size
        && AllPass(pass, w.start, w.end)
        && (w.start == 0 || !pass[w.start - 1])
        && (w.end == |pass| - 1 || !pass[w.end + 1]))
      && (forall s, e :: 0 <= s <= e < |pass| && AllPass(pass, s, e) ==> e - s + 1 <= w.size)
      && (forall s, e :: 0 <= s <= e < |pass| && AllPass(pass, s, e) && e - s + 1 == w.size ==> w.start <= s)
  {
    var n := |pass|;
    var w := BestWindow(pass, n);
    FirstLongestEndFacts(pass, n);
    forall s, e | 0 <= s <= e < n && AllPass(pass, s, e)
      ensures e - s + 1 <= w.size
      ensures e - s + 1 == w.size ==> w.start <= s
    {
      RunAtCoversRun(pass, s, e);
      LongestBounds(pass, n, e);
    }
    if w.size == 0 {
      forall k | 0 <= k < n ensures !pass[k] {
        if pass[k] {
          assert AllPass(pass, k, k);
        }
      }
    } else {
      RunAtIsRun(pass, w.end);
      if w.end < n - 1 && pass[w.end + 1] {
        assert RunAt(pass, w.end + 1) == w.size + 1;
        LongestBounds(pass, n, w.end + 1);
      }
    }
  }

  // ---------------------------------------------------------------------------
  // Closing a run: the step the sweep performs when a run ends
  // ---------------------------------------------------------------------------

  /** While a run [c, m) of passing values grows, Longest and FirstLongestEnd evolve predictably. */
  lemma {:induction false} GrowRun(pass: seq<bool>, c: nat, m: nat)
    requires c <= m <= |pass|
    requires c == 0 || !pass[c - 1]
    requires forall k :: c <= k < m ==> pass[k]
    ensures RunAt(pass, m - 1) == m - c
    ensures Longest(pass, m) == if m - c > Longest(pass, c) then m - c else Longest(pass, c)
    ensures FirstLongestEnd(pass, m) == if m - c > Longest(pass, c) then m - 1 else FirstLongestEnd(pass, c)
    decreases m - c
  {
    if m > c {
      GrowRun(pass, c, m - 1);
    }
  }

  /** A failing candidate changes neither the longest run nor where it ends. */
  lemma FailKeeps(pass: seq<bool>, n: nat)
    requires n < |pass| && !pass[n]
    ensures Longest(pass, n + 1) == Longest(pass, n)
    ensures FirstLongestEnd(pass, n + 1) == FirstLongestEnd(pass, n)
  {
  }

  // ---------------------------------------------------------------------------
  // The sweep (PSRAM_calibration)
  // ---------------------------------------------------------------------------

  /** Value written to CAL_PARA for candidate n during the sweep. */
  function SweepWord(paraIn: bv32, layout: CalLayout, n: bv32): (w: bv32)
    requires n < 32
    ensures layout.nMask & 0x1f == 0x1f ==>
      w & layout.nMask == n && w & !layout.nMask == paraIn & !layout.nMask
  {
    (paraIn & !layout.nMask) | n
  }

  /** J/JMAX margin and N centre programmed from a window. */
  function Margin(w: Window): int { (w.end - w.start) / 2 - 2 }
  function Centre(w: Window): int { (w.end + w.start) / 2 }

  /** An accepted window gives a margin of at least 2 and a centre inside the window. */
  lemma AcceptedWindowBounds(w: Window)
    requires 0 <= w.start <= w.end < CalibNMax
    requires w.end - w.start + 1 == w.size >= MinWindow
    ensures 2 <= Margin(w) <= 13
    ensures w.start <= Centre(w) <= w.end <= 31
  {
  }

  /** Fields J, JMAX (margin m) and N (centre c) placed at their shifts. */
  function CalFields(layout: CalLayout, m: bv32, c: bv32): bv32
    requires layout.Valid()
  {
    (m << layout.jmaxShift) | (m << layout.jShift) | (c << layout.nShift)
  }

  /**
   * Final CAL_PARA word built from the swept base: the low 20 bits are replaced
   * by the J/JMAX/N fields and the bits above are those of the base.
   */
  function FinalWordOf(paraIn: bv32, layout: CalLayout, m: bv32, c: bv32): (r: bv32)
    requires layout.Valid()
    ensures r & CalFieldMask == CalFields(layout, m, c) & CalFieldMask
    ensures CalFields(layout, m, c) & !CalFieldMask == 0 ==>
      r & !CalFieldMask == paraIn & !layout.nMask & !CalFieldMask
  {
    ((paraIn & !layout.nMask) & !CalFieldMask) | CalFields(layout, m, c)
  }

  function FinalWord(paraIn: bv32, layout: CalLayout, w: Window): bv32
    requires layout.Valid()
    requires 0 <= w.start <= w.end < CalibNMax
    requires w.end - w.start + 1 == w.size >= MinWindow
  {
    AcceptedWindowBounds(w);
    FinalWordOf(paraIn, layout, Margin(w) as bv32, Centre(w) as bv32)
  }

  /** The writes of the sweep for candidates 0 .. n-1. */
  function SweepTrace(paraIn: bv32, layout: CalLayout, n: nat): (t: seq<PhyWrite>)
    requires n <= CalibNMax
    ensures |t| == n
    ensures forall k :: 0 <= k < n ==> t[k] == CalPara(SweepWord(paraIn, layout, k as bv32))
  {
    if n == 0 then [] else SweepTrace(paraIn, layout, n - 1) + [CalPara(SweepWord(paraIn, layout, (n - 1) as bv32))]
  }

  /** State of the sweep: the best window so far and the run in progress. */
  datatype Tracker = Tracker(best: Window, cur: Window)

  const Initial: Tracker := Tracker(NoWindow, NoWindow)

  /** One iteration of the sweep for candidate n, given whether its pattern check passed. */
  function Step(t: Tracker, n: nat, passed: bool): Tracker
  {
    if passed then
      var start := if t.cur.start < 0 then n else t.cur.start;
      var cur := Window(start, t.cur.size + 1, start + t.cur.size);
      if n == CalibNMax - 1 && cur.size > t.best.size then Tracker(cur, cur)
      else Tracker(t.best, cur)
    else if t.cur.start >= 0 then
      Tracker(if t.cur.size > t.best.size then t.cur else t.best, NoWindow)
    else t
  }

  /** What the tracker holds after the first n candidates. */
  ghost predicate TrackerInv(pass: seq<bool>, n: nat, t: Tracker)
    requires |pass| == CalibNMax as int && n <= CalibNMax
  {
    && 0 <= t.cur.size <= n
    && (t.cur.size == 0 ==> t.cur == NoWindow)
    && (t.cur.size > 0 ==> t.cur.start == n - t.cur.size && t.cur.end == n - 1)
    && (forall k :: n - t.cur.size <= k < n ==> pass[k])
    && (n - t.cur.size == 0 || !pass[n - t.cur.size - 1])
    && (n < CalibNMax ==> t.best == BestWindow(pass, n - t.cur.size))
    && (n == CalibNMax ==> t.best == BestWindow(pass, n))
  }

  /** Each sweep step keeps the tracker in step with the reference window. */
  lemma StepKeepsInv(pass: seq<bool>, n: nat, t: Tracker)
    requires |pass| == CalibNMax as int && n < CalibNMax
    requires TrackerInv(pass, n, t)
    ensures TrackerInv(pass, n + 1, Step(t, n, pass[n]))
  {
    if pass[n] {
      if n < CalibNMax - 1 {
        StepPassInv(pass, n, t);
      } else {
        StepLastPassInv(pass, n, t);
      }
    } else if t.cur.start >= 0 {
      StepCloseInv(pass, n, t);
    } else {
      StepIdleInv(pass, n, t);
    }
  }

  /** A passing N before the last one extends the run in progress. */
  lemma StepPassInv(pass: seq<bool>, n: nat, t: Tracker)
    requires |pass| == CalibNMax as int && n < CalibNMax - 1 && pass[n]
    requires TrackerInv(pass, n, t)
    ensures TrackerInv(pass, n + 1, Step(t, n, pass[n]))
  {
    var t' := Step(t, n, pass[n]);
    assert t'.best == t.best;
    assert t'.cur == Window(n - t.cur.size, t.cur.size + 1, n);
    assert n + 1 - t'.cur.size == n - t.cur.size;
  }

  /** A run still passing at N = 31 is compared against the best window. */
  lemma StepLastPassInv(pass: seq<bool>, n: nat, t: Tracker)
    requires |pass| == CalibNMax as int && n == CalibNMax - 1 && pass[n]
    requires TrackerInv(pass, n, t)
    ensures TrackerInv(pass, n + 1, Step(t, n, pass[n]))
  {
    var t' := Step(t, n, pass[n]);
    var c := n - t.cur.size;
    assert t'.cur == Window(c, t.cur.size + 1, n);
    GrowRun(pass, c, n + 1);
    assert t.best.size == Longest(pass, c);
  }

  /** A failing N closes the run in progress and keeps the longer window. */
  lemma StepCloseInv(pass: seq<bool>, n: nat, t: Tracker)
    requires |pass| == CalibNMax as int && n < CalibNMax && !pass[n] && t.cur.start >= 0
    requires TrackerInv(pass, n, t)
    ensures TrackerInv(pass, n + 1, Step(t, n, pass[n]))
  {
    var c := n - t.cur.size;
    assert t.cur.size > 0;
    GrowRun(pass, c, n);
    FailKeeps(pass, n);
    assert t.best.size == Longest(pass, c);
  }

  /** A failing N with no run in progress changes nothing. */
  lemma StepIdleInv(pass: seq<bool>, n: nat, t: Tracker)
    requires |pass| == CalibNMax as int && n < CalibNMax && !pass[n] && t.cur.start < 0
    requires TrackerInv(pass, n, t)
    ensures TrackerInv(pass, n + 1, Step(t, n, pass[n]))
  {
    assert t.cur.size == 0;
    FailKeeps(pass, n);
  }

  /** One CAL_PARA write of the sweep, for N = n. */
  method SweepWrite(paraIn: bv32, layout: CalLayout, n: nat, writes: seq<PhyWrite>) returns (writes': seq<PhyWrite>)
    requires n < CalibNMax && writes == SweepTrace(paraIn, layout, n)
    ensures writes' == SweepTrace(paraIn, layout, n + 1)
  {
    writes' := writes + [CalPara(SweepWord(paraIn, layout, n as bv32))];
  }

  /** The sweep loop over N = 0 .. 31: its CAL_PARA writes and the window it keeps. */
  method Sweep(layout: CalLayout, paraIn: bv32, pass: seq<bool>)
    returns (writes: seq<PhyWrite>, best: Window)
    requires |pass| == CalibNMax as int
    ensures writes == SweepTrace(paraIn, layout, CalibNMax)
    ensures best == BestWindow(pass, |pass|)
  {
    writes := [];
    var t := Initial;
    var n: nat := 0;
    while n < CalibNMax
      invariant n <= CalibNMax
      invariant writes == SweepTrace(paraIn, layout, n)
      invariant TrackerInv(pass, n, t)
    {
      writes := SweepWrite(paraIn, layout, n, writes);
      StepKeepsInv(pass, n, t);
      t := Step(t, n, pass[n]);
      n := n + 1;
    }
    best := t.best;
  }

  /**
   * PSRAM_calibration.  `paraIn` and `ctrlIn` are the values read from CAL_PARA
   * and CAL_CTRL; `pass[n]` says whether the six-word pattern read back
   * intact with N = n.  Returns the PHY writes in order, the verdict and the
   * best window found.
   */
  method Calibrate(layout: CalLayout, paraIn: bv32, ctrlIn: bv32, pass: seq<bool>)
    returns (trace: seq<PhyWrite>, ok: bool, best: Window)
    requires layout.Valid()
    requires |pass| == CalibNMax as int
    ensures best == BestWindow(pass, |pass|)
    ensures ok <==> best.size >= MinWindow as int
    ensures |trace| == if ok then 35 else 33
    ensures trace[0] == CalCtrl(ctrlIn & !layout.calEn)
    ensures trace[1..33] == SweepTrace(paraIn, layout, CalibNMax)
    ensures ok ==> 0 <= best.start <= best.end < CalibNMax && best.end - best.start + 1 == best.size
    ensures ok ==> trace[33] == CalPara(FinalWord(paraIn, layout, best))
    ensures ok ==> trace[34] == CalCtrl(ctrlIn | layout.calEn)
  {
    var writes;
    writes, best := Sweep(layout, paraIn, pass);
    trace := [CalCtrl(ctrlIn & !layout.calEn)] + writes;
    assert trace[1..33] == writes;
    if best.size < MinWindow as int {
      ok := false;
      return;
    }
    BestWindowIsEarliestLongestRun(pass);
    ok := true;
    trace := trace + [CalPara(FinalWord(paraIn, layout, best)), CalCtrl(ctrlIn | layout.calEn)];
    assert trace[1..33] == writes;
  }

  /** Worked example: fail 0-4, pass 5-20, fail 21-23, pass 24-27, fail 28-31. */
  lemma ExampleWindow()
    ensures var pass := seq(32, k => 5 <= k <= 20 || 24 <= k <= 27);
      BestWindow(pass, 32) == Window(5, 16, 20) && Margin(Window(5, 16, 20)) == 5 && Centre(Window(5, 16, 20)) == 12
  {
    var pass := seq(32, k => 5 <= k <= 20 || 24 <= k <= 27);
    FailKeeps(pass, 0); FailKeeps(pass, 1); FailKeeps(pass, 2); FailKeeps(pass, 3); FailKeeps(pass, 4);
    GrowRun(pass, 5, 21);
    FailKeeps(pass, 21); FailKeeps(pass, 22); FailKeeps(pass, 23);
    GrowRun(pass, 24, 28);
    FailKeeps(pass, 28); FailKeeps(pass, 29); FailKeeps(pass, 30); FailKeeps(pass, 31);
  }

  // ---------------------------------------------------------------------------
  // PSRAM_CTRL_CA_Gen
  // ---------------------------------------------------------------------------

  /** The six command/address bytes for a direct-pin transaction. */
  function CaGen(addr: bv32, burst: bv8, space: bv8, rw: bv8): (ca: seq<bv8>)
    ensures |ca| == 6
  {
    [ (addr & 0x7) as bv8,
      0,
      ((addr >> 3) & 0xf) as bv8,
      ((addr >> 11) & 0xf) as bv8,
      ((addr >> 19) & 0xf) as bv8,
      ((((addr >> 27) & 0xf) | ((burst as bv32) << 5) | ((space as bv32) << 6) | ((rw as bv32) << 7)) & 0xff) as bv8 ]
  }

  /** Address bits that reach the command/address bytes. */
  const CaAddrBits: bv32 := 0x7878_787f

  /** Reassemble the address bits carried by a command/address array. */
  function CaAddress(ca: seq<bv8>): bv32
    requires |ca| == 6
  {
    ((ca[0] & 0x7) as bv32) | (((ca[2] & 0xf) as bv32) << 3) | (((ca[3] & 0xf) as bv32) << 11)
    | (((ca[4] & 0xf) as bv32) << 19) | (((ca[5] & 0xf) as bv32) << 27)
  }

  /**
   * Round trip: the bytes carry exactly the address bits 0-6, 11-14, 19-22 and
   * 27-30 and the three one-bit flags in bits 5, 6 and 7 of the last byte;
   * bits 7-10, 15-18, 23-26 and 31 never reach the output.
   */
  lemma CaGenRoundTrip(addr: bv32, burst: bv8, space: bv8, rw: bv8)
    requires burst <= 1 && space <= 1 && rw <= 1
    ensures var ca := CaGen(addr, burst, space, rw);
      && CaAddress(ca) == addr & CaAddrBits
      && ca[1] == 0
      && (ca[5] >> 5) & 1 == burst && (ca[5] >> 6) & 1 == space && ca[5] >> 7 == rw
      && ca[5] & 0x10 == 0
  {
  }

  /** Two addresses that agree on the carried bits agree on every field CaGen extracts. */
  lemma CaFieldsAgree(a: bv32, b: bv32)
    requires a & CaAddrBits == b & CaAddrBits
    ensures a & 0x7 == b & 0x7
    ensures (a >> 3) & 0xf == (b >> 3) & 0xf
    ensures (a >> 11) & 0xf == (b >> 11) & 0xf
    ensures (a >> 19) & 0xf == (b >> 19) & 0xf
    ensures (a >> 27) & 0xf == (b >> 27) & 0xf
  {
    assert a & 0x7 == (a & CaAddrBits) & 0x7;
    assert b & 0x7 == (b & CaAddrBits) & 0x7;
    assert (a >> 3) & 0xf == ((a & CaAddrBits) >> 3) & 0xf;
    assert (b >> 3) & 0xf == ((b & CaAddrBits) >> 3) & 0xf;
    assert (a >> 11) & 0xf == ((a & CaAddrBits) >> 11) & 0xf;
    assert (b >> 11) & 0xf == ((b & CaAddrBits) >> 11) & 0xf;
    assert (a >> 19) & 0xf == ((a & CaAddrBits) >> 19) & 0xf;
    assert (b >> 19) & 0xf == ((b & CaAddrBits) >> 19) & 0xf;
    assert (a >> 27) & 0xf == ((a & CaAddrBits) >> 27) & 0xf;
    assert (b >> 27) & 0xf == ((b & CaAddrBits) >> 27) & 0xf;
  }

  /** Address bits outside CaAddrBits do not influence the generated bytes. */
  lemma CaGenIgnoresDroppedBits(a: bv32, b: bv32, burst: bv8, space: bv8, rw: bv8)
    requires a & CaAddrBits == b & CaAddrBits
    ensures CaGen(a, burst, space, rw) == CaGen(b, burst, space, rw)
  {
    CaFieldsAgree(a, b);
  }

  // ---------------------------------------------------------------------------
  // PSRAM_CTRL_StructInit / DRR arithmetic of PSRAM_CTRL_Init
  // ---------------------------------------------------------------------------

  /** The timing part of PCTL_InitTypeDef (picoseconds). */
  datatype Timing = Timing(tcphPs: nat, tpuPs: nat, tcemPs: nat, clkPs: nat)

  /** Defaults filled in by PSRAM_CTRL_StructInit. */
  const DefaultTiming: Timing := Timing(15000, 150000000, 2000000, 20000)

  /** The three DRR fields in clock cycles; `clkPs * 1000` is a 32-bit product. */
  datatype DrrFields = DrrFields(puTime: nat, cemTime: nat, cphTime: nat)

  /** `q` is the least number of `unit`-sized steps that goes past `x`. */
  predicate LeastPast(q: int, x: nat, unit: nat) {
    (q - 1) * unit <= x < q * unit
  }

  /** The unit of the power-up time: `clk_ps * 1000` taken in u32. */
  function PuUnit(clk: nat): (u: nat)
    ensures clk * 1000 < U32 ==> u == clk * 1000
  {
    (clk * 1000) % U32
  }

  /** `x / unit + 1`: the least number of whole units that goes past `x`. */
  function StepsPast(x: nat, unit: nat): (q: nat)
    requires unit > 0
    ensures LeastPast(q, x, unit)
  {
    DivPast(x, unit);
    x / unit + 1
  }

  /** `x / unit`: the number of whole units that fit in `x`. */
  function StepsWithin(x: nat, unit: nat): (q: nat)
    requires unit > 0
    ensures LeastPast(q + 1, x, unit)
  {
    DivPast(x, unit);
    x / unit
  }

  /**
   * The DRR word of PSRAM_CTRL_Init: power-up time in units of `clk_ps * 1000`
   * (taken in u32), CEM time in whole clocks, CPH time rounded past its bound.
   */
  function Drr(t: Timing): (d: DrrFields)
    requires 0 < t.clkPs < U32 && PuUnit(t.clkPs) != 0
    ensures LeastPast(d.puTime, t.tpuPs, PuUnit(t.clkPs))
    ensures LeastPast(d.cemTime + 1, t.tcemPs, t.clkPs)
    ensures LeastPast(d.cphTime, t.tcphPs, t.clkPs)
  {
    DrrFields(StepsPast(t.tpuPs, PuUnit(t.clkPs)), StepsWithin(t.tcemPs, t.clkPs), StepsPast(t.tcphPs, t.clkPs))
  }

  /** When `clk_ps * 1000` fits in 32 bits the power-up time is counted in whole nanosecond-scaled clocks. */
  lemma DrrPuUnwrapped(t: Timing)
    requires 0 < t.clkPs && t.clkPs * 1000 < U32
    ensures LeastPast(Drr(t).puTime, t.tpuPs, t.clkPs * 1000)
  {
    assert PuUnit(t.clkPs) == t.clkPs * 1000;
  }

  /** The quotient plus one is the least step count past the dividend. */
  lemma DivPast(x: nat, d: nat)
    requires d > 0
    ensures LeastPast(x / d + 1, x, d)
  {
    DivBracket(x, d);
  }

  /** The quotient brackets the dividend. */
  lemma DivBracket(x: nat, d: nat)
    requires d > 0
    ensures (x / d) * d <= x < (x / d + 1) * d
  {
    DivMod(x, d);
  }

  /** With the StructInit defaults the DRR fields evaluate to 8, 100 and 1. */
  lemma DefaultDrr()
    ensures Drr(DefaultTiming) == DrrFields(8, 100, 1)
  {
  }
}
