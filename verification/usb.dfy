/**
 * The chip-specific USB glue of ameba_usb.c: the choice of PHY calibration
 * table, the pinmux save and restore around init and deinit, the bounded wait
 * for the PHY clock, the OTG enable bits of the add-on control register, and
 * the IRQ handler registration.
 *
 * The power sequence on REG_HS_OTG_CTRL is left out.  The add-on register
 * reads during the clock wait are an oracle `ready(k)` (the k-th poll sees
 * UPLL_CKRDY), and the pad configurations PAD_PullCtrl leaves are an input.
 */
module Usb {

  import opened Bits

  /** HAL_OK and HAL_TIMEOUT of ameba.h. */
  const HalOk: nat := 0
  const HalTimeout: nat := 2

  /** The USB add-on control register bits defined in this file. */
  const UpllCkrdy: bv32 := 0x20
  const UsbOtgEn: bv32 := 0x100
  const UsbPhyEn: bv32 := 0x200

  /**
   * Every add-on bit except USBOTG_EN and USBPHY_EN.  The add-on word is the
   * value the driver last wrote; the status bit UPLL_CKRDY is owned by the
   * hardware and its reads are the `ready` oracle, so "kept" here says the
   * driver's writes do not touch it.
   */
  const OtherBits: bv32 := 0xFFFF_FCFF

  /** The poll gives up once the count passes this. */
  const PollLimit: nat := 1000

  // ---------------------------------------------------------------------------
  // Calibration tables
  // ---------------------------------------------------------------------------

  /** usb_cal_data_t: page, address, value. */
  datatype CalEntry = CalEntry(page: nat, addr: nat, val: nat)

  /** The end marker of every table. */
  const Sentinel: CalEntry := CalEntry(0xFF, 0x00, 0x00)

  const HostRl6886: seq<CalEntry> := [
    CalEntry(0x00, 0xE0, 0x33), CalEntry(0x00, 0xE1, 0x2E), CalEntry(0x00, 0xE2, 0x9D),
    CalEntry(0x00, 0xE3, 0x81), CalEntry(0x00, 0xE5, 0x92), CalEntry(0x00, 0xE6, 0x96),
    CalEntry(0x00, 0xF7, 0x12), Sentinel]

  const HostRl6548c: seq<CalEntry> := [
    CalEntry(0x00, 0xE0, 0x33), CalEntry(0x00, 0xE1, 0x2E), CalEntry(0x00, 0xE2, 0x9A),
    CalEntry(0x00, 0xE5, 0x92), CalEntry(0x00, 0xE6, 0x9A), CalEntry(0x00, 0xF7, 0x12),
    Sentinel]

  const DeviceRl6886: seq<CalEntry> := [
    CalEntry(0x00, 0xE0, 0x33), CalEntry(0x00, 0xE1, 0xAE), CalEntry(0x00, 0xE2, 0x7D),
    CalEntry(0x00, 0xE3, 0x81), CalEntry(0x00, 0xE5, 0x96), CalEntry(0x00, 0xE6, 0x96),
    CalEntry(0x00, 0xE1, 0x2E), CalEntry(0x00, 0xE1, 0xAE), Sentinel]

  const DeviceRl6548c: seq<CalEntry> := [
    CalEntry(0x00, 0xE0, 0x33), CalEntry(0x00, 0xE1, 0xAE), CalEntry(0x00, 0xE2, 0x7A),
    CalEntry(0x00, 0xE3, 0x81), CalEntry(0x00, 0xE5, 0x96), CalEntry(0x00, 0xE6, 0x9A),
    CalEntry(0x00, 0xE1, 0x2E), CalEntry(0x00, 0xE1, 0xAE), Sentinel]

  /** A table is well formed: it ends with the sentinel, and no earlier entry is on page 0xFF. */
  predicate Terminated(t: seq<CalEntry>) {
    |t| >= 1 && t[|t| - 1] == Sentinel && forall i :: 0 <= i < |t| - 1 ==> t[i].page != 0xFF
  }

  /**
   * usb_chip_get_cal_data: mode 0 is device, anything else host; an IC
   * version of at least IC_VERSION_4 (`icVersion4`) is an RL6886, older ones
   * an RL6548C.
   */
  function GetCalData(mode: nat, icVersion: nat, icVersion4: nat): (t: seq<CalEntry>)
    ensures Terminated(t)
    ensures mode == 0 <==> |t| == 9
    ensures |t| >= 7 && (icVersion >= icVersion4 <==> t[2].val in {0x9D, 0x7D})
  {
    if mode == 0 then
      (if icVersion >= icVersion4 then DeviceRl6886 else DeviceRl6548c)
    else
      (if icVersion >= icVersion4 then HostRl6886 else HostRl6548c)
  }

  /** The four tables differ, so the table tells the mode class and the chip apart. */
  lemma GetCalDataDistinct(m1: nat, v1: nat, m2: nat, v2: nat, v4: nat)
    ensures GetCalData(m1, v1, v4) == GetCalData(m2, v2, v4) <==> (m1 == 0 <==> m2 == 0) && (v1 >= v4 <==> v2 >= v4)
  {
    assert HostRl6886[2] != HostRl6548c[2];
    assert DeviceRl6886[2] != DeviceRl6548c[2];
    assert |HostRl6886| != |DeviceRl6886| && |HostRl6548c| != |DeviceRl6548c|;
    assert |HostRl6886| != |DeviceRl6548c| && |HostRl6548c| != |DeviceRl6886|;
  }

  // ---------------------------------------------------------------------------
  // Init and deinit
  // ---------------------------------------------------------------------------

  /** The PADCTR words of the DM, DP and RREF pins. */
  datatype Pins = Pins(dm: bv32, dp: bv32, rref: bv32)

  /** The driver's statics and the registers it touches. */
  datatype UsbState = UsbState(pads: Pins, saved: Pins, initialized: bool, addon: bv32, handler: Option<(nat, nat)>)

  /** The do-while poll: the number of the first poll that sees CKRDY, up to the limit. */
  function FirstReady(ready: nat -> bool, k: nat): (r: Option<nat>)
    requires 1 <= k
    ensures r.Some? ==> k <= r.value <= PollLimit && ready(r.value)
    ensures r.Some? ==> forall j :: k <= j < r.value ==> !ready(j)
    ensures r.None? ==> forall j :: k <= j <= PollLimit ==> !ready(j)
    decreases PollLimit + 1 - k
  {
    if k > PollLimit then None else if ready(k) then Some(k) else FirstReady(ready, k + 1)
  }

  /**
   * The wait for UPLL_CKRDY: each turn increments the count, gives up once it
   * passes 1000, and otherwise reads the register.  Returns whether the clock
   * became ready and how many reads it took.
   */
  method WaitCkrdy(ready: nat -> bool) returns (ok: bool, count: nat)
    ensures ok <==> FirstReady(ready, 1).Some?
    ensures ok ==> count == FirstReady(ready, 1).value && ready(count)
    ensures !ok ==> count == PollLimit + 1
  {
    count := 0;
    while true
      invariant count <= PollLimit
      invariant forall j :: 1 <= j <= count ==> !ready(j)
      invariant FirstReady(ready, 1) == FirstReady(ready, count + 1)
      decreases PollLimit - count
    {
      count := count + 1;
      if count > PollLimit {
        return false, count;
      }
      if ready(count) {
        return true, count;
      }
    }
  }

  /**
   * The state usb_chip_init leaves: the three pad configurations saved, the
   * pads as PAD_PullCtrl left them (`pulled`), the flag set, USBPHY_EN set, and
   * USBOTG_EN set only when the PHY clock came up (`ready`).
   */
  function AfterInit(s: UsbState, pulled: Pins, ready: bool): (s': UsbState)
    ensures s'.saved == s.pads && s'.pads == pulled && s'.initialized && s'.handler == s.handler
    ensures s'.addon & UsbPhyEn != 0
    ensures s'.addon & UsbOtgEn != 0 <==> ready || s.addon & UsbOtgEn != 0
    ensures s'.addon & OtherBits == s.addon & OtherBits
  {
    var phy := s.addon | UsbPhyEn;
    var addon := if ready then phy | UsbOtgEn else phy;
    AddonSet(s.addon);
    s.(saved := s.pads, pads := pulled, initialized := true, addon := addon)
  }

  lemma AddonSet(a: bv32)
    ensures (a | 0x200) & 0x100 == a & 0x100
    ensures (a | 0x200) & OtherBits == a & OtherBits
    ensures ((a | 0x200) | 0x100) & OtherBits == a & OtherBits
  {
  }

  /** usb_chip_init: HAL_TIMEOUT when no poll of the 1000 sees the PHY clock, HAL_OK otherwise. */
  method Init(s: UsbState, pulled: Pins, ready: nat -> bool) returns (s': UsbState, status: nat)
    ensures status == HalOk || status == HalTimeout
    ensures status == HalOk <==> exists k :: 1 <= k <= PollLimit && ready(k)
    ensures s' == AfterInit(s, pulled, status == HalOk)
  {
    var ok, count := WaitCkrdy(ready);
    if !ok {
      assert forall k :: 1 <= k <= PollLimit ==> !ready(k);
      return AfterInit(s, pulled, false), HalTimeout;
    }
    return AfterInit(s, pulled, true), HalOk;
  }

  /**
   * usb_chip_deinit: clear USBOTG_EN and then USBPHY_EN, and put the saved pad
   * configurations back if init had saved them, clearing the flag.
   */
  function Deinit(s: UsbState): (r: (UsbState, nat))
    ensures r.1 == HalOk && !r.0.initialized
    ensures r.0.pads == if s.initialized then s.saved else s.pads
    ensures r.0.addon & 0x300 == 0
    ensures r.0.addon & OtherBits == s.addon & OtherBits
  {
    var addon := s.addon & !UsbOtgEn & !UsbPhyEn;
    AddonClear(s.addon);
    var s1 := s.(addon := addon);
    if s.initialized then (s1.(initialized := false, pads := s.saved), HalOk) else (s1, HalOk)
  }

  lemma AddonClear(a: bv32)
    ensures (a & 0xFFFF_FEFF & 0xFFFF_FDFF) & 0x300 == 0
    ensures (a & 0xFFFF_FEFF & 0xFFFF_FDFF) & OtherBits == a & OtherBits
    ensures (a & 0xFFFF_FEFF & 0xFFFF_FDFF) & 0xFFFF_FEFF & 0xFFFF_FDFF == a & 0xFFFF_FEFF & 0xFFFF_FDFF
  {
  }

  /**
   * Init followed by deinit gives the pads back as they were, whether or not
   * the clock came up, and leaves the other add-on bits as they were.
   */
  lemma InitDeinitRestores(s: UsbState, pulled: Pins, ready: bool)
    ensures var r := Deinit(AfterInit(s, pulled, ready)).0;
            && r.pads == s.pads && !r.initialized
            && r.addon & OtherBits == s.addon & OtherBits
  {
  }

  /** A second deinit changes nothing: the flag makes the restore happen once. */
  lemma DeinitTwice(s: UsbState)
    ensures Deinit(Deinit(s).0) == Deinit(s)
  {
  }

  // ---------------------------------------------------------------------------
  // IRQ handler
  // ---------------------------------------------------------------------------

  /** usb_chip_register_irq_handler: a NULL handler (None) registers nothing. */
  function RegisterIrqHandler(s: UsbState, handler: Option<nat>, priority: nat): (s': UsbState)
    ensures handler.None? ==> s' == s
    ensures handler.Some? ==> s'.handler == Some((handler.value, priority))
    ensures s'.pads == s.pads && s'.saved == s.saved && s'.initialized == s.initialized && s'.addon == s.addon
  {
    if handler.Some? then s.(handler := Some((handler.value, priority))) else s
  }
}
