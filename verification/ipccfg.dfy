/**
 * The two channel tables of ameba_ipccfg.c (ipc_init_config for the CM4/KM4
 * image and for the KM0 image), as inputs to the table scan of module Ipc.
 */
module IpcConfig {

  import opened Ipc

  /** Values of IPC_USER_DATA and IPC_USER_POINT, defined in a header outside this model. */
  datatype MsgTypes = MsgTypes(userData: bv32, userPoint: bv32)
  {
    predicate Valid() {
      userData != TableEnd && userPoint != TableEnd && userData != userPoint
    }
  }

  /**
   * Link-time addresses of the handlers and of IPCM4_DEV.  `fwFlow` is the
   * address of driver_fw_flow_ipc_int, or 0 (NULL) when CONFIG_WIFI_FW_EN is off.
   */
  datatype Symbols = Symbols(shellSwitch: nat, flashWrite: nat, km4Tickless: nat, fwFlow: nat, ipcm4Dev: nat)
  {
    predicate Valid() {
      shellSwitch != 0 && flashWrite != 0 && km4Tickless != 0 && ipcm4Dev != 0
    }
  }

  /** The table end entry {0xFFFFFFFF, OFF, OFF}. */
  const Sentinel: TableEntry := TableEntry(TableEnd, 0, 0)

  /** Number of channel entries before the sentinel in a full table. */
  const Channels: nat := 32

  function Cm4Entry(t: MsgTypes, s: Symbols, i: int): TableEntry {
    if i == 0 then TableEntry(t.userData, s.shellSwitch, 0)
    else if i == 2 then TableEntry(t.userData, s.flashWrite, 0)
    else if i == 3 then TableEntry(t.userPoint, 0, 0)
    else TableEntry(t.userData, 0, 0)
  }

  function Km0Entry(t: MsgTypes, s: Symbols, i: int): TableEntry {
    if i == 0 then TableEntry(t.userData, s.shellSwitch, 0)
    else if i == 1 then TableEntry(t.userData, s.fwFlow, s.ipcm4Dev)
    else if i == 2 then TableEntry(t.userData, s.flashWrite, 0)
    else if i == 31 then TableEntry(t.userPoint, s.km4Tickless, 0)
    else TableEntry(t.userData, 0, 0)
  }

  /** The CM4 table; under Zephyr it holds only the sentinel. */
  function Cm4Table(t: MsgTypes, s: Symbols, zephyr: bool): (table: seq<TableEntry>)
    ensures |table| > 0 && table[|table| - 1] == Sentinel
  {
    if zephyr then [Sentinel] else seq(Channels, i => Cm4Entry(t, s, i)) + [Sentinel]
  }

  /** The KM0 table: 32 channel entries and the sentinel. */
  function Km0Table(t: MsgTypes, s: Symbols): (table: seq<TableEntry>)
    ensures |table| == Channels + 1 && table[Channels] == Sentinel
  {
    seq(Channels, i => Km0Entry(t, s, i)) + [Sentinel]
  }

  /** Entries without a handler add no registration. */
  lemma {:induction false} NoHandlerRange(table: seq<TableEntry>, a: nat, b: nat)
    requires a <= b <= |table|
    requires forall i :: a <= i < b ==> !HasHandler(table[i])
    ensures Registrations(table, b) == Registrations(table, a)
    decreases b - a
  {
    if a < b {
      NoHandlerRange(table, a, b - 1);
    }
  }

  /** In a table of valid channel entries the first sentinel is the last entry. */
  lemma SentinelAtEnd(table: seq<TableEntry>, t: MsgTypes)
    requires t.Valid() && |table| > 0 && table[|table| - 1] == Sentinel
    requires forall i :: 0 <= i < |table| - 1 ==> table[i].msgType in {t.userData, t.userPoint}
    ensures Terminated(table) && SentinelIndex(table) == |table| - 1
  {
  }

  /** Under Zephyr the CM4 scan registers nothing. */
  lemma ZephyrRegistersNothing(t: MsgTypes, s: Symbols)
    ensures var table := Cm4Table(t, s, true);
      Terminated(table) && SentinelIndex(table) == 0 && Registrations(table, SentinelIndex(table)) == []
  {
  }

  /**
   * Without Zephyr the CM4 scan visits 32 entries and registers only channels
   * 0 and 2; channel 3 is IPC_USER_POINT with no handler.
   */
  lemma Cm4Registrations(t: MsgTypes, s: Symbols)
    requires t.Valid() && s.Valid()
    ensures var table := Cm4Table(t, s, false);
      && Terminated(table) && SentinelIndex(table) == Channels
      && table[3] == TableEntry(t.userPoint, 0, 0)
      && Registrations(table, SentinelIndex(table))
         == [Registration(0, s.shellSwitch, 0), Registration(2, s.flashWrite, 0)]
  {
    var table := Cm4Table(t, s, false);
    SentinelAtEnd(table, t);
    NoHandlerRange(table, 3, Channels);
    assert Registrations(table, 3) == [Registration(0, s.shellSwitch, 0), Registration(2, s.flashWrite, 0)] by {
      assert Registrations(table, 1) == [Registration(0, s.shellSwitch, 0)];
      assert Registrations(table, 2) == Registrations(table, 1);
    }
  }

  /**
   * The KM0 scan visits exactly 32 entries and registers channels 0, 1, 2 and
   * 31; channel 1 is registered through its IrqData even when fw_flow_ipc_int
   * is NULL, and channel 31 is IPC_USER_POINT with km4_tickless_ipc_int.
   */
  lemma Km0Registrations(t: MsgTypes, s: Symbols)
    requires t.Valid() && s.Valid()
    ensures var table := Km0Table(t, s);
      && Terminated(table) && SentinelIndex(table) == Channels
      && table[31] == TableEntry(t.userPoint, s.km4Tickless, 0)
      && Registrations(table, SentinelIndex(table))
         == [Registration(0, s.shellSwitch, 0), Registration(1, s.fwFlow, s.ipcm4Dev),
             Registration(2, s.flashWrite, 0), Registration(31, s.km4Tickless, 0)]
  {
    var table := Km0Table(t, s);
    SentinelAtEnd(table, t);
    NoHandlerRange(table, 3, 31);
    assert Registrations(table, 3)
      == [Registration(0, s.shellSwitch, 0), Registration(1, s.fwFlow, s.ipcm4Dev), Registration(2, s.flashWrite, 0)] by {
      assert Registrations(table, 1) == [Registration(0, s.shellSwitch, 0)];
      assert Registrations(table, 2) == [Registration(0, s.shellSwitch, 0), Registration(1, s.fwFlow, s.ipcm4Dev)];
    }
  }
}
