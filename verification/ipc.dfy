/**
 * The cross-core IPC mailbox of ameba_ipc_api.c.
 *
 * Each core writes its own bank of USR words (KM4 writes IPCM4_DEV, KM0 writes
 * IPCM0_DEV) and reads the peer's.  Channels 0-10 travel in USR[ch]; channels
 * 11-31 travel in the sender's `Messages` array whose address is published in
 * USR[11].  Sends and gets are atomic steps on an explicit state; interrupt
 * delivery is a log of requests.
 */
module Ipc {

  /** Value of IPC_CPUID() on the KM4 core; any other value routes as KM0. */
  const Km4CpuId: bv32 := 1
  /** Value of IPC_CPUID() on the KM0 core. */
  const Km0CpuId: bv32 := 0
  /** Return value of every send (IPC_SEND_SUCCESS). */
  const SendSuccess: bv32 := 0
  /** Type word that ends a channel table. */
  const TableEnd: bv32 := 0xFFFF_FFFF
  /** Number of entries of each core's `Messages` array. */
  const MessageSlots: nat := 32
  /** USR word that carries the address of the sender's `Messages` array. */
  const PointerSlot: nat := 11

  datatype Core = Km0 | Km4

  /** The core a CPU id routes as. */
  function CoreOf(cpuId: bv32): (c: Core)
    ensures c == Km4 <==> cpuId == Km4CpuId
  {
    if cpuId == Km4CpuId then Km4 else Km0
  }

  function Peer(c: Core): (p: Core)
    ensures p != c
  {
    if c == Km4 then Km0 else Km4
  }

  /**
   * An entry of ipc_init_config: message type and the handler and data
   * pointers (0 is NULL).
   */
  datatype TableEntry = TableEntry(msgType: bv32, func: nat, irqData: nat)

  /** A handler registration made by IPC_INTUserHandler. */
  datatype Registration = Registration(channel: nat, func: nat, irqData: nat)

  /** An IPC_INTRequest: the bank written and the channel number. */
  datatype IrqRequest = IrqRequest(bank: Core, channel: nat)

  /**
   * Addresses of the two `Messages` arrays (one in each core's image), as
   * stored into USR[11].
   */
  datatype Addresses = Addresses(messagesKm0: bv32, messagesKm4: bv32)
  {
    predicate Valid() { messagesKm0 != messagesKm4 }
    function Of(c: Core): bv32 { if c == Km0 then messagesKm0 else messagesKm4 }
  }

  /**
   * The mailbox state.  A USR bank is a map from word index to value (an
   * absent index holds 0) because the send writes USR[ch] for any u8 channel
   * without a bounds check.
   */
  datatype Mailbox = Mailbox(
    usrKm0: map<nat, bv32>,
    usrKm4: map<nat, bv32>,
    messagesKm0: seq<bv32>,
    messagesKm4: seq<bv32>,
    msgTemp: bv32,
    irqs: seq<IrqRequest>)
  {
    predicate Valid() {
      |messagesKm0| == MessageSlots && |messagesKm4| == MessageSlots
    }

    /** USR[i] of the bank written by core c. */
    function Usr(c: Core, i: nat): bv32 {
      var bank := if c == Km0 then usrKm0 else usrKm4;
      if i in bank then bank[i] else 0
    }

    function Messages(c: Core): seq<bv32> {
      if c == Km0 then messagesKm0 else messagesKm4
    }

    function SetUsr(c: Core, i: nat, v: bv32): Mailbox {
      if c == Km0 then this.(usrKm0 := usrKm0[i := v]) else this.(usrKm4 := usrKm4[i := v])
    }

    function SetMessage(c: Core, i: nat, v: bv32): Mailbox
      requires Valid() && i < MessageSlots
    {
      if c == Km0 then this.(messagesKm0 := messagesKm0[i := v])
      else this.(messagesKm4 := messagesKm4[i := v])
    }
  }

  /**
   * Power-on state: the Messages entries zero as their definition says, the
   * USR words taken to reset to zero, nothing requested.
   */
  function InitialMailbox(): (m: Mailbox)
    ensures m.Valid()
    ensures forall c: Core, i: nat :: m.Usr(c, i) == 0
    ensures forall c: Core, i :: 0 <= i < MessageSlots ==> m.Messages(c)[i] == 0
    ensures m.irqs == []
  {
    Mailbox(map[], map[], seq(MessageSlots, _ => 0), seq(MessageSlots, _ => 0), 0, [])
  }

  // ---------------------------------------------------------------------------
  // ipc_table_init
  // ---------------------------------------------------------------------------

  /** The table has a sentinel entry; the scan stops at the first one. */
  predicate Terminated(table: seq<TableEntry>) {
    exists i :: 0 <= i < |table| && table[i].msgType == TableEnd
  }

  /** Index of the first sentinel. */
  function SentinelIndex(table: seq<TableEntry>): (k: nat)
    requires Terminated(table)
    ensures k < |table| && table[k].msgType == TableEnd
    ensures forall i :: 0 <= i < k ==> table[i].msgType != TableEnd
  {
    if table[0].msgType == TableEnd then 0
    else
      assert Terminated(table[1..]) by {
        var i :| 0 <= i < |table| && table[i].msgType == TableEnd;
        assert table[1..][i - 1] == table[i];
      }
      1 + SentinelIndex(table[1..])
  }

  /** An entry that the scan hands to IPC_INTUserHandler. */
  predicate HasHandler(e: TableEntry) {
    e.func != 0 || e.irqData != 0
  }

  /** Reference: registrations made for the entries before index n, in order. */
  function Registrations(table: seq<TableEntry>, n: nat): seq<Registration>
    requires n <= |table|
  {
    if n == 0 then []
    else
      var e := table[n - 1];
      Registrations(table, n - 1) + if HasHandler(e) then [Registration(n - 1, e.func, e.irqData)] else []
  }

  /** Channel i is registered among the first n entries exactly when its entry has a handler. */
  lemma {:induction false} RegistrationsExact(table: seq<TableEntry>, n: nat, i: nat)
    requires n <= |table|
    ensures (exists r :: r in Registrations(table, n) && r.channel == i) <==> i < n && HasHandler(table[i])
    ensures forall r :: r in Registrations(table, n) ==>
      r.channel < n && r == Registration(r.channel, table[r.channel].func, table[r.channel].irqData)
  {
    if n > 0 {
      RegistrationsExact(table, n - 1, i);
      var e := table[n - 1];
      if i == n - 1 && HasHandler(e) {
        assert Registration(n - 1, e.func, e.irqData) in Registrations(table, n);
      }
    }
  }

  /** ipc_table_init: scans entries 0, 1, ... up to the first sentinel. */
  method TableInit(table: seq<TableEntry>) returns (regs: seq<Registration>)
    requires Terminated(table)
    ensures regs == Registrations(table, SentinelIndex(table))
  {
    regs := [];
    var i: nat := 0;
    var k := SentinelIndex(table);
    while table[i].msgType != TableEnd
      invariant i <= k
      invariant regs == Registrations(table, i)
      decreases k - i
    {
      if table[i].func != 0 || table[i].irqData != 0 {
        regs := regs + [Registration(i, table[i].func, table[i].irqData)];
      }
      i := i + 1;
    }
  }

  // ---------------------------------------------------------------------------
  // ipc_send_message / ipc_get_message
  // ---------------------------------------------------------------------------

  /**
   * The stack range check made outside Zephyr for IPC_USER_POINT channels:
   * the message word must lie above `stackAddr + stackSize * 4` words or below
   * `stackAddr`.  The addition is pointer arithmetic on `uint32_t *`, so it
   * adds 16 bytes per unit of `stackSize`, and wraps in 32 bits.
   */
  predicate OutsideStack(msg: bv32, stackAddr: bv32, stackSize: bv32) {
    msg > stackAddr + stackSize * 4 * 4 || msg < stackAddr
  }

  /** How the send ends: the new state and the return value, or an assert_param halt. */
  datatype SendOutcome = Sent(state: Mailbox, ret: bv32) | AssertHalt

  /** Whether a channel number uses the overflow array. */
  predicate Overflow(ch: nat) { 10 < ch < 32 }

  /**
   * ipc_send_message.  `pointCheck` is true when the code is built without
   * Zephyr and the table entry of `ch` has type IPC_USER_POINT.
   */
  function Send(m: Mailbox, addrs: Addresses, cpuId: bv32, ch: nat, msg: bv32,
                pointCheck: bool, stackAddr: bv32, stackSize: bv32): (o: SendOutcome)
    requires m.Valid() && ch < 256
    ensures o.AssertHalt? <==> pointCheck && !OutsideStack(msg, stackAddr, stackSize)
    ensures o.Sent? ==> o.ret == SendSuccess && o.state.Valid()
    ensures o.Sent? ==> o.state.irqs == m.irqs + [IrqRequest(CoreOf(cpuId), ch)]
    ensures o.Sent? ==> o.state.msgTemp == m.msgTemp
    ensures o.Sent? ==> forall i: nat :: o.state.Usr(Peer(CoreOf(cpuId)), i) == m.Usr(Peer(CoreOf(cpuId)), i)
    ensures o.Sent? ==> o.state.Messages(Peer(CoreOf(cpuId))) == m.Messages(Peer(CoreOf(cpuId)))
  {
    if pointCheck && !OutsideStack(msg, stackAddr, stackSize) then AssertHalt
    else
      var own := CoreOf(cpuId);
      var m1 :=
        if Overflow(ch) then m.SetMessage(own, ch, msg).SetUsr(own, PointerSlot, addrs.Of(own))
        else m.SetUsr(own, ch, msg);
      Sent(m1.(irqs := m1.irqs + [IrqRequest(own, ch)]), SendSuccess)
  }

  /**
   * Word `ch` of the u32 array at address `p`: an entry of one of the two
   * Messages arrays when `p` is the address of one and `ch < 32`, otherwise
   * memory this model does not hold, given as `foreign`.
   */
  function Deref(m: Mailbox, addrs: Addresses, p: bv32, ch: nat, foreign: bv32): bv32
    requires m.Valid()
  {
    if ch < MessageSlots && p == addrs.messagesKm0 then m.messagesKm0[ch]
    else if ch < MessageSlots && p == addrs.messagesKm4 then m.messagesKm4[ch]
    else foreign
  }

  /**
   * ipc_get_message.  The returned pointer is always &ipc_msg_temp, so the
   * model returns the word stored in its `msg` field.  `foreign` is the word
   * read when the pointer in USR[11] does not lead into a Messages array.
   */
  function Get(m: Mailbox, addrs: Addresses, cpuId: bv32, ch: nat, foreign: bv32): (r: (Mailbox, bv32))
    requires m.Valid() && ch < 256
    ensures r.0 == m.(msgTemp := r.1)
    ensures ch <= 10 ==> r.1 == m.Usr(Peer(CoreOf(cpuId)), ch)
    ensures ch > 10 ==> r.1 == Deref(m, addrs, m.Usr(Peer(CoreOf(cpuId)), PointerSlot), ch, foreign)
  {
    var peer := Peer(CoreOf(cpuId));
    var v :=
      if ch > 10 then Deref(m, addrs, m.Usr(peer, PointerSlot), ch, foreign)
      else m.Usr(peer, ch);
    (m.(msgTemp := v), v)
  }

  /**
   * Round trip: a message sent on channel ch < 32 by one core is what a get on
   * the same channel returns on the other core.
   */
  lemma SendThenGet(m: Mailbox, addrs: Addresses, sender: bv32, receiver: bv32, ch: nat, msg: bv32,
                    pointCheck: bool, stackAddr: bv32, stackSize: bv32, foreign: bv32)
    requires m.Valid() && addrs.Valid()
    requires CoreOf(receiver) == Peer(CoreOf(sender))
    requires ch < 32
    requires Send(m, addrs, sender, ch, msg, pointCheck, stackAddr, stackSize).Sent?
    ensures var m' := Send(m, addrs, sender, ch, msg, pointCheck, stackAddr, stackSize).state;
      Get(m', addrs, receiver, ch, foreign).1 == msg
  {
  }

  /** The two routings are inverses: get on a core reads the bank the other core's send writes. */
  lemma RoutingInverse(cpuId: bv32)
    ensures Peer(Peer(CoreOf(cpuId))) == CoreOf(cpuId)
    ensures cpuId == Km4CpuId ==> Peer(CoreOf(cpuId)) == Km0
    ensures cpuId != Km4CpuId ==> Peer(CoreOf(cpuId)) == Km4
  {
  }

  /**
   * A send on another channel does not disturb a message already sent on
   * channel ch < 32: overflow channels have distinct Messages entries, direct
   * channels distinct USR words, and USR[11] only ever holds the same address.
   */
  lemma SendKeepsOtherChannel(m: Mailbox, addrs: Addresses, sender: bv32, receiver: bv32,
                              ch: nat, other: nat, msg: bv32, foreign: bv32,
                              pointCheck: bool, stackAddr: bv32, stackSize: bv32)
    requires m.Valid() && addrs.Valid()
    requires CoreOf(receiver) == Peer(CoreOf(sender))
    requires ch < 32 && other < 256 && other != ch
    requires Overflow(ch) ==> m.Usr(CoreOf(sender), PointerSlot) == addrs.Of(CoreOf(sender))
    requires Send(m, addrs, sender, other, msg, pointCheck, stackAddr, stackSize).Sent?
    ensures var m' := Send(m, addrs, sender, other, msg, pointCheck, stackAddr, stackSize).state;
      Get(m', addrs, receiver, ch, foreign).1 == Get(m, addrs, receiver, ch, foreign).1
  {
    var own := CoreOf(sender);
    var m' := Send(m, addrs, sender, other, msg, pointCheck, stackAddr, stackSize).state;
    assert Peer(CoreOf(receiver)) == own;
    SendFrame(m, addrs, sender, other, msg, pointCheck, stackAddr, stackSize);
    if Overflow(ch) {
      assert m'.Usr(own, PointerSlot) == m.Usr(own, PointerSlot);
      assert m'.Messages(own)[ch] == m.Messages(own)[ch];
    } else {
      assert m'.Usr(own, ch) == m.Usr(own, ch);
    }
  }

  /**
   * What a send changes in the sender's bank and array: USR[ch] for a direct
   * channel; Messages[ch] and USR[11] (set to the array's address) for an
   * overflow channel.
   */
  lemma SendFrame(m: Mailbox, addrs: Addresses, cpuId: bv32, ch: nat, msg: bv32,
                  pointCheck: bool, stackAddr: bv32, stackSize: bv32)
    requires m.Valid() && ch < 256
    requires Send(m, addrs, cpuId, ch, msg, pointCheck, stackAddr, stackSize).Sent?
    ensures var m' := Send(m, addrs, cpuId, ch, msg, pointCheck, stackAddr, stackSize).state;
      var own := CoreOf(cpuId);
      && m'.Messages(Peer(own)) == m.Messages(Peer(own))
      && (Overflow(ch) ==>
        && m'.Messages(own) == m.Messages(own)[ch := msg]
        && m'.Usr(own, PointerSlot) == addrs.Of(own)
        && (forall i: nat :: i != PointerSlot ==> m'.Usr(own, i) == m.Usr(own, i)))
      && (!Overflow(ch) ==>
        && m'.Messages(own) == m.Messages(own)
        && m'.Usr(own, ch) == msg
        && (forall i: nat :: i != ch ==> m'.Usr(own, i) == m.Usr(own, i)))
  {
  }

  /** Get leaves the mailbox alone, so two gets in a row return the same word. */
  lemma GetIdempotent(m: Mailbox, addrs: Addresses, cpuId: bv32, ch: nat, foreign: bv32)
    requires m.Valid() && ch < 256
    ensures var (m1, v1) := Get(m, addrs, cpuId, ch, foreign);
      var (m2, v2) := Get(m1, addrs, cpuId, ch, foreign);
      v2 == v1 && m2 == m1
  {
  }
}
