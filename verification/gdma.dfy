/**
 * The RAM part of the GDMA driver, ameba_gdma_ram.c: how GDMA_Init packs a
 * channel's control and configuration words, how GDMA_SetLLP fills a linked
 * list of block descriptors, and the bounded wait of GDMA_Abort.
 *
 * The register-layout header is not part of this model: the masks it defines
 * (BIT_CTLX_LO_INT_EN, BIT_CTLX_UP_BLOCK_BS, BIT_CFGX_UP_SRC_PER, ...) are a
 * `Layout` parameter, and the verdict of IS_GDMA_DIR is an input.  GDMA_Cmd,
 * GDMA_ClearINT and GDMA_INTConfig live elsewhere; the model records that
 * GDMA_Init disables a busy channel, not what the disable writes.
 */
module Gdma {

  import opened Bits

  /** The channels of the controller. */
  const Channels: bv32 := 8

  /** GDMA_Abort's counter starts here. */
  const AbortTimeout: nat := 500

  /** The header's masks. */
  datatype Layout = Layout(
    intEn: bv32,       // BIT_CTLX_LO_INT_EN
    blockBs: bv32,     // BIT_CTLX_UP_BLOCK_BS
    perBits: bv32,     // BIT_CFGX_UP_SRC_PER | BIT_CFGX_UP_DEST_PER
    llpBits: bv32,     // BIT_CTLX_LO_LLP_DST_EN | BIT_CTLX_LO_LLP_SRC_EN
    secDisable: bv32,  // BIT_CFGX_UP_SEC_DISABLE
    chSusp: bv32,      // BIT_CFGx_L_CH_SUSP
    fifoEmpty: bv32)   // BIT_CFGx_L_FIFO_EMPTY

  // ---------------------------------------------------------------------------
  // GDMA_Init
  // ---------------------------------------------------------------------------

  /** The fields of GDMA_InitTypeDef that go into CTL_LOW. */
  datatype CtlFields = CtlFields(
    dstWidth: bv32, srcWidth: bv32, dstInc: bv32, srcInc: bv32,
    dstMsize: bv32, srcMsize: bv32, dir: bv32, llpDstEn: bv32, llpSrcEn: bv32)

  /**
   * Every field fits below the next field's shift, so no two overlap: the
   * widths 3, 3, 2, 2, 3, 6, 7, 1 and 4 bits are what the shifts 1, 4, 7, 9,
   * 11, 14, 20, 27 and 28 leave room for.
   */
  predicate Fits(f: CtlFields) {
    && f.dstWidth < 8 && f.srcWidth < 8 && f.dstInc < 4 && f.srcInc < 4
    && f.dstMsize < 8 && f.srcMsize < 64 && f.dir < 128 && f.llpDstEn < 2 && f.llpSrcEn < 16
  }

  /** CTL_LOW as GDMA_Init composes it. */
  function PackCtlLow(intEn: bv32, f: CtlFields): bv32 {
    intEn | (f.dstWidth << 1) | (f.srcWidth << 4) | (f.dstInc << 7) | (f.srcInc << 9)
      | (f.dstMsize << 11) | (f.srcMsize << 14) | (f.dir << 20) | (f.llpDstEn << 27) | (f.llpSrcEn << 28)
  }

  /** Reading the fields back out of a CTL_LOW word. */
  function UnpackCtlLow(w: bv32): CtlFields {
    CtlFields((w >> 1) & 7, (w >> 4) & 7, (w >> 7) & 3, (w >> 9) & 3,
              (w >> 11) & 7, (w >> 14) & 63, (w >> 20) & 127, (w >> 27) & 1, (w >> 28) & 15)
  }

  /**
   * Packing loses nothing: with fields that fit and an interrupt-enable mask
   * of bit 0 only (the one bit below the first shift), every field reads back
   * and the interrupt-enable bit is set.
   */
  lemma CtlLowRoundTrip(intEn: bv32, f: CtlFields)
    requires Fits(f) && intEn & 0xFFFF_FFFE == 0
    ensures UnpackCtlLow(PackCtlLow(intEn, f)) == f
    ensures PackCtlLow(intEn, f) & intEn == intEn
  {
    LowFields(intEn, f);
    MidFields(intEn, f);
    HighFields(intEn, f);
  }

  lemma LowFields(intEn: bv32, f: CtlFields)
    ensures Fits(f) && intEn & 0xFFFF_FFFE == 0 ==>
              var u := UnpackCtlLow(PackCtlLow(intEn, f));
              && u.dstWidth == f.dstWidth && u.srcWidth == f.srcWidth
              && u.dstInc == f.dstInc && u.srcInc == f.srcInc
              && PackCtlLow(intEn, f) & intEn == intEn
  {
  }

  lemma MidFields(intEn: bv32, f: CtlFields)
    ensures Fits(f) && intEn & 0xFFFF_FFFE == 0 ==>
              var u := UnpackCtlLow(PackCtlLow(intEn, f));
              u.dstMsize == f.dstMsize && u.srcMsize == f.srcMsize
  {
  }

  lemma HighFields(intEn: bv32, f: CtlFields)
    ensures Fits(f) && intEn & 0xFFFF_FFFE == 0 ==>
              var u := UnpackCtlLow(PackCtlLow(intEn, f));
              u.dir == f.dir && u.llpDstEn == f.llpDstEn && u.llpSrcEn == f.llpSrcEn
  {
  }

  /** GDMA_InitTypeDef as far as this file reads it. */
  datatype Config = Config(
    ctl: CtlFields, blockSize: bv32, reloadSrc: bv32, reloadDst: bv32,
    srcHandshake: bv32, dstHandshake: bv32, secure: bool, srcAddr: bv32, dstAddr: bv32)

  /** The registers of one channel. */
  datatype Channel = Channel(sar: bv32, dar: bv32, ctlLow: bv32, ctlHigh: bv32, cfgLow: bv32, cfgHigh: bv32)

  /** `BIT(ch) | BIT(ch + 8)`: the channel's enable bit and its write-enable bit. */
  function ChEnMask(ch: bv32): bv32
    requires ch < Channels
  {
    (1 << ch) | (1 << (ch + 8))
  }

  /** The mask has the channel's bit in the low byte, the same bit in the next byte, and nothing else. */
  lemma ChEnMaskBits(ch: bv32)
    requires ch < Channels
    ensures ChEnMask(ch) & 0xFF == 1 << ch
    ensures (ChEnMask(ch) >> 8) & 0xFF == 1 << ch
    ensures ChEnMask(ch) & 0xFFFF_0000 == 0
  {
    if ch == 0 { assert ChEnMask(0) == 0x101; }
    else if ch == 1 { assert ChEnMask(1) == 0x202; }
    else if ch == 2 { assert ChEnMask(2) == 0x404; }
    else if ch == 3 { assert ChEnMask(3) == 0x808; }
    else if ch == 4 { assert ChEnMask(4) == 0x1010; }
    else if ch == 5 { assert ChEnMask(5) == 0x2020; }
    else if ch == 6 { assert ChEnMask(6) == 0x4040; }
    else { assert ChEnMask(7) == 0x8080; }
  }

  /**
   * CFG_HIGH: first the security bit is cleared for a secure transfer and set
   * otherwise, then the peripheral fields are cleared and the handshake
   * interfaces ORed in at bits 7 and 11.
   */
  function CfgHigh(l: Layout, prev: bv32, c: Config): bv32 {
    var sec := if c.secure then prev & !l.secDisable else prev | l.secDisable;
    (sec & !l.perBits) | (c.srcHandshake << 7) | (c.dstHandshake << 11)
  }

  /**
   * With four-bit handshake numbers and peripheral fields covering bits 7-14,
   * both numbers read back, and the bits above keep what the security step
   * left.
   */
  lemma CfgHighFields(l: Layout, prev: bv32, c: Config)
    requires c.srcHandshake < 16 && c.dstHandshake < 16 && l.perBits & 0x7F80 == 0x7F80
    ensures var w := CfgHigh(l, prev, c);
            && (w >> 7) & 15 == c.srcHandshake
            && (w >> 11) & 15 == c.dstHandshake
  {
    var sec := if c.secure then prev & !l.secDisable else prev | l.secDisable;
    HandshakeFields(sec & !l.perBits, c.srcHandshake, c.dstHandshake);
  }

  lemma HandshakeFields(base: bv32, src: bv32, dst: bv32)
    ensures base & 0x7F80 == 0 && src < 16 && dst < 16 ==>
              var w := base | (src << 7) | (dst << 11);
              (w >> 7) & 15 == src && (w >> 11) & 15 == dst
  {
  }

  /**
   * For a secure transfer the security bit ends up cleared, when the
   * peripheral fields and the handshakes leave it alone.
   */
  lemma CfgHighSecureClears(l: Layout, prev: bv32, c: Config)
    ensures l.secDisable & (l.perBits | 0x7F80) == 0 && c.srcHandshake < 16 && c.dstHandshake < 16 && c.secure ==>
              CfgHigh(l, prev, c) & l.secDisable == 0
  {
    SecureCleared(prev, l.perBits, l.secDisable, c.srcHandshake, c.dstHandshake);
  }

  /** For a non-secure transfer the security bit ends up set, under the same conditions. */
  lemma CfgHighNonSecureSets(l: Layout, prev: bv32, c: Config)
    ensures l.secDisable & (l.perBits | 0x7F80) == 0 && c.srcHandshake < 16 && c.dstHandshake < 16 && !c.secure ==>
              CfgHigh(l, prev, c) & l.secDisable == l.secDisable
  {
    SecureSet(prev, l.perBits, l.secDisable, c.srcHandshake, c.dstHandshake);
  }

  lemma SecureCleared(prev: bv32, p: bv32, b: bv32, src: bv32, dst: bv32)
    ensures b & (p | 0x7F80) == 0 && src < 16 && dst < 16 ==>
              (((prev & !b) & !p) | (src << 7) | (dst << 11)) & b == 0
  {
  }

  lemma SecureSet(prev: bv32, p: bv32, b: bv32, src: bv32, dst: bv32)
    ensures b & (p | 0x7F80) == 0 && src < 16 && dst < 16 ==>
              (((prev | b) & !p) | (src << 7) | (dst << 11)) & b == b
  {
  }

  /** What GDMA_Init does: nothing for an unsupported direction, otherwise the new channel registers and whether it had to disable a busy channel first. */
  datatype InitOutcome = Rejected | Programmed(ch: Channel, dmaCfg: bv32, disabledBusy: bool)

  /**
   * GDMA_Init on channel `ch`, whose registers are `regs`, with the channel
   * enable register reading `chEnReg`.
   */
  function Init(l: Layout, regs: Channel, chEnReg: bv32, ch: bv32, c: Config, dirSupported: bool): (r: InitOutcome)
    requires ch < Channels
    ensures !dirSupported <==> r.Rejected?
    ensures r.Programmed? ==>
              && r.dmaCfg == 1
              && (r.disabledBusy <==> chEnReg & ChEnMask(ch) != 0)
              && r.ch.sar == c.srcAddr && r.ch.dar == c.dstAddr
              && r.ch.ctlLow == PackCtlLow(l.intEn, c.ctl)
              && r.ch.ctlHigh & !l.blockBs == 0
              && r.ch.ctlHigh == c.blockSize & l.blockBs
              && r.ch.cfgHigh == CfgHigh(l, regs.cfgHigh, c)
  {
    if !dirSupported then Rejected
    else
      var ctlHigh := c.blockSize & l.blockBs;
      var cfgLow := (c.reloadSrc << 30) | (c.reloadDst << 31);
      var cfgHigh := CfgHigh(l, regs.cfgHigh, c);
      Programmed(Channel(c.srcAddr, c.dstAddr, PackCtlLow(l.intEn, c.ctl), ctlHigh, cfgLow, cfgHigh), 1, chEnReg & ChEnMask(ch) != 0)
  }

  /** CFG_LOW carries the two reload flags in its top bits and nothing else. */
  lemma InitReloadBits(l: Layout, regs: Channel, chEnReg: bv32, ch: bv32, c: Config)
    requires ch < Channels && c.reloadSrc < 2 && c.reloadDst < 2
    ensures var w := Init(l, regs, chEnReg, ch, c, true).ch.cfgLow;
            && w >> 30 == ((c.reloadDst << 1) | c.reloadSrc)
            && w & 0x3FFF_FFFF == 0
  {
    ReloadBits(c.reloadSrc, c.reloadDst);
  }

  lemma ReloadBits(s: bv32, d: bv32)
    ensures s < 2 && d < 2 ==>
              var w := (s << 30) | (d << 31);
              w >> 30 == ((d << 1) | s) && w & 0x3FFF_FFFF == 0
  {
  }

  // ---------------------------------------------------------------------------
  // GDMA_SetLLP
  // ---------------------------------------------------------------------------

  /** struct GDMA_CH_LLI as the walk sees it: its block size and the address of the next node's element. */
  datatype ListNode = ListNode(blockSize: bv32, nextAddr: bv32)

  /** GDMA_CH_LLI_ELE: what SetLLP writes into a node. */
  datatype Lli = Lli(ctlLow: bv32, ctlUp: bv32, llp: bv32)

  /**
   * `up &= ~bs; up |= blk & bs`: the block-size field holds the new block size
   * and every other bit is the old word's.
   */
  lemma BlockField(up: bv32, blk: bv32, bs: bv32)
    ensures ((up & !bs) | (blk & bs)) & bs == blk & bs
    ensures ((up & !bs) | (blk & bs)) & !bs == up & !bs
  {
  }

  /** Putting a word's own block-size field back leaves it as it was. */
  lemma BlockSame(up: bv32, bs: bv32)
    ensures (up & !bs) | (up & bs) == up
  {
  }

  /** Replacing the block size twice is replacing it once. */
  lemma BlockTwice(up: bv32, a: bv32, b: bv32, bs: bv32)
    ensures (((up & !bs) | (a & bs)) & !bs) | (b & bs) == (up & !bs) | (b & bs)
  {
  }

  /**
   * `(1 == MultiBlockCount) & (~round)`: the node is the last one and bit 0 of
   * `round` is clear.
   */
  function ClearsLlp(remaining: nat, round: bv32): bool {
    remaining == 1 && 1 & !round != 0
  }

  /** The test holds exactly on the last node of a list whose `round` has bit 0 clear. */
  lemma ClearsLlpLast(remaining: nat, round: bv32)
    ensures ClearsLlp(remaining, round) <==> remaining == 1 && round & 1 == 0
  {
  }

  /**
   * The descriptor GDMA_SetLLP writes for `node`: CTL_LOW without the LLP
   * enable bits when it is the last node of a linear list (bit 0 of `round`
   * clear), CTL_HIGH with the node's block size in the block-size field, and
   * the address of the next node.
   */
  function Descriptor(l: Layout, ctlLow: bv32, up0: bv32, node: ListNode, last: bool, round: bv32): Lli {
    var low := if last && round & 1 == 0 then ctlLow & !l.llpBits else ctlLow;
    Lli(low, (up0 & !l.blockBs) | (node.blockSize & l.blockBs), node.nextAddr)
  }

  /** The descriptor of node `i` of `count`. */
  function NodeSpec(l: Layout, ctlLow: bv32, up0: bv32, nodes: seq<ListNode>, count: nat, round: bv32, i: nat): Lli
    requires i < count <= |nodes|
  {
    Descriptor(l, ctlLow, up0, nodes[i], i == count - 1, round)
  }

  /** The first `n` descriptors, one NodeSpec after another. */
  function Walk(l: Layout, ctlLow: bv32, up0: bv32, nodes: seq<ListNode>, count: nat, round: bv32, n: nat): (w: seq<Lli>)
    requires n <= count <= |nodes|
    ensures |w| == n
  {
    if n == 0 then [] else Walk(l, ctlLow, up0, nodes, count, round, n - 1) + [NodeSpec(l, ctlLow, up0, nodes, count, round, n - 1)]
  }

  lemma {:induction false} WalkNodes(l: Layout, ctlLow: bv32, up0: bv32, nodes: seq<ListNode>, count: nat, round: bv32, n: nat)
    requires n <= count <= |nodes|
    ensures forall i :: 0 <= i < n ==> Walk(l, ctlLow, up0, nodes, count, round, n)[i] == NodeSpec(l, ctlLow, up0, nodes, count, round, i)
  {
    if n > 0 {
      WalkNodes(l, ctlLow, up0, nodes, count, round, n - 1);
    }
  }

  /**
   * One turn of GDMA_SetLLP's loop, on a node with `remaining` nodes left
   * including it: clear the LLP enable bits if this is the last node of a
   * linear list, replace the block-size field of `up`, and write the
   * descriptor.  `prev` is the block size the previous turn put into `up`.
   */
  method Turn(l: Layout, ctlLow: bv32, up0: bv32, node: ListNode, remaining: nat, round: bv32, up: bv32, prev: bv32)
    returns (up': bv32, e: Lli)
    requires up == (up0 & !l.blockBs) | (prev & l.blockBs)
    ensures e == Descriptor(l, ctlLow, up0, node, remaining == 1, round)
    ensures up' == (up0 & !l.blockBs) | (node.blockSize & l.blockBs)
  {
    var low := LastLow(l, ctlLow, remaining, round);
    up' := NextUp(l, up0, node.blockSize, up, prev);
    e := Lli(low, up', node.nextAddr);
  }

  /** `CtlxUp.b.BLOCK_TS = BlockSize` on the running CTL_HIGH. */
  method NextUp(l: Layout, up0: bv32, blk: bv32, up: bv32, prev: bv32) returns (up': bv32)
    requires up == (up0 & !l.blockBs) | (prev & l.blockBs)
    ensures up' == (up0 & !l.blockBs) | (blk & l.blockBs)
  {
    up' := up & !l.blockBs;
    up' := up' | (blk & l.blockBs);
    BlockTwice(up0, prev, blk, l.blockBs);
  }

  /** CTL_LOW of the node: the LLP enable bits cleared when ClearsLlp holds. */
  method LastLow(l: Layout, ctlLow: bv32, remaining: nat, round: bv32) returns (low: bv32)
    ensures remaining == 1 && round & 1 == 0 ==> low == ctlLow & !l.llpBits
    ensures !(remaining == 1 && round & 1 == 0) ==> low == ctlLow
  {
    ClearsLlpLast(remaining, round);
    low := ctlLow;
    if ClearsLlp(remaining, round) {
      low := low & !l.llpBits;
    }
  }

  /** The walk of GDMA_SetLLP's loop over the first `count` nodes, CTL_HIGH being `up0`. */
  method WalkList(l: Layout, ctlLow: bv32, up0: bv32, nodes: seq<ListNode>, count: nat, round: bv32) returns (out: seq<Lli>)
    requires count <= |nodes|
    ensures |out| == count
    ensures forall i :: 0 <= i < count ==> out[i] == NodeSpec(l, ctlLow, up0, nodes, count, round, i)
  {
    var up := up0;
    var remaining: nat := count;
    var prev: bv32 := up0;
    BlockSame(up0, l.blockBs);
    out := [];
    while remaining > 0
      invariant remaining <= count && |out| + remaining == count
      invariant up == (up0 & !l.blockBs) | (prev & l.blockBs)
      invariant out == Walk(l, ctlLow, up0, nodes, count, round, |out|)
    {
      var node := nodes[|out|];
      var e;
      up, e := Turn(l, ctlLow, up0, node, remaining, round, up, prev);
      prev := node.blockSize;
      out := out + [e];
      remaining := remaining - 1;
    }
    WalkNodes(l, ctlLow, up0, nodes, count, round, count);
  }

  /**
   * GDMA_SetLLP: CTL_HIGH gets the first block size ORed in, LLP points at the
   * first node, and the first `count` nodes get their descriptors.  Only the
   * last node of a linear list (bit 0 of `round` clear) loses the LLP enable
   * bits; every node's block-size field is its own block size and the rest of
   * its upper word is the channel's new CTL_HIGH.
   */
  method SetLlp(l: Layout, ctlLow: bv32, ctlHigh: bv32, nodes: seq<ListNode>, firstAddr: bv32, count: nat, round: bv32)
    returns (newCtlHigh: bv32, llp: bv32, out: seq<Lli>)
    requires 1 <= |nodes| && count <= |nodes|
    ensures newCtlHigh == (nodes[0].blockSize & l.blockBs) | ctlHigh
    ensures llp == firstAddr
    ensures |out| == count
    ensures forall i :: 0 <= i < count ==> out[i] == NodeSpec(l, ctlLow, newCtlHigh, nodes, count, round, i)
    ensures forall i :: 0 <= i < count ==> out[i].llp == nodes[i].nextAddr
  {
    newCtlHigh := (nodes[0].blockSize & l.blockBs) | ctlHigh;
    llp := firstAddr;
    out := WalkList(l, ctlLow, newCtlHigh, nodes, count, round);
  }

  // ---------------------------------------------------------------------------
  // GDMA_ChnlFIFOIsEmpty, GDMA_Suspend, GDMA_Resume
  // ---------------------------------------------------------------------------

  /** GDMA_ChnlFIFOIsEmpty: TRUE when CFG_LOW's FIFO_EMPTY bit is set. */
  function FifoIsEmpty(l: Layout, cfgLow: bv32): bool {
    cfgLow & l.fifoEmpty != 0
  }

  /**
   * With CH_SUSP and FIFO_EMPTY distinct bits, suspending and resuming leave
   * the FIFO_EMPTY bit that GDMA_ChnlFIFOIsEmpty tests as it was.
   */
  lemma SuspendKeepsFifoBit(l: Layout, w: bv32)
    ensures l.chSusp & l.fifoEmpty == 0 ==> Suspend(l, w) & l.fifoEmpty == w & l.fifoEmpty
  {
  }

  lemma ResumeKeepsFifoBit(l: Layout, w: bv32)
    ensures l.chSusp & l.fifoEmpty == 0 ==> Resume(l, w) & l.fifoEmpty == w & l.fifoEmpty
  {
  }

  /** GDMA_Suspend: set CH_SUSP in CFG_LOW. */
  function Suspend(l: Layout, cfgLow: bv32): (w: bv32) {
    cfgLow | l.chSusp
  }

  /** GDMA_Resume: clear CH_SUSP in CFG_LOW. */
  function Resume(l: Layout, cfgLow: bv32): (w: bv32) {
    cfgLow & !l.chSusp
  }

  /** Suspend sets the suspend bits and leaves every other bit of CFG_LOW alone. */
  lemma SuspendBits(l: Layout, w: bv32)
    ensures Suspend(l, w) & l.chSusp == l.chSusp && Suspend(l, w) & !l.chSusp == w & !l.chSusp
  {
    SetClear(w, l.chSusp);
  }

  /** Resume clears the suspend bits and leaves every other bit of CFG_LOW alone. */
  lemma ResumeBits(l: Layout, w: bv32)
    ensures Resume(l, w) & l.chSusp == 0 && Resume(l, w) & !l.chSusp == w & !l.chSusp
  {
    SetClear(w, l.chSusp);
  }

  lemma SetClear(w: bv32, m: bv32)
    ensures (w | m) & m == m && (w | m) & !m == w & !m
    ensures (w & !m) & m == 0 && (w & !m) & !m == w & !m
  {
  }

  /** A resume after a suspend is a resume alone. */
  lemma ResumeAfterSuspend(l: Layout, w: bv32)
    ensures Resume(l, Suspend(l, w)) == Resume(l, w)
  {
  }

  // ---------------------------------------------------------------------------
  // GDMA_Abort
  // ---------------------------------------------------------------------------

  /**
   * `while (timeout--) { if (inactive) break; }` on a u32 counter: the value
   * the counter has when the loop ends, having checked the channel `k` times
   * already.  `inactive(j)` is what the j-th check sees (the enable bit clear
   * or CFG_LOW's INACTIVE bit set).
   */
  function AbortLoop(inactive: nat -> bool, timeout: nat, k: nat): (t: nat)
    requires timeout < U32
    ensures t < U32
    decreases timeout
  {
    if timeout == 0 then U32 - 1
    else if inactive(k + 1) then timeout - 1
    else AbortLoop(inactive, timeout - 1, k + 1)
  }

  /** The first check in k+1 .. k+n that sees the channel inactive. */
  predicate FirstInactiveAt(inactive: nat -> bool, k: nat, j: nat) {
    inactive(j) && forall m :: k < m < j ==> !inactive(m)
  }

  /** The loop ends with the counter wrapped to 2^32-1 when no check succeeds, and at `timeout - (j - k)` when check `j` is the first to. */
  lemma {:induction false} AbortLoopValue(inactive: nat -> bool, timeout: nat, k: nat)
    requires timeout < U32
    ensures (forall m :: k < m <= k + timeout ==> !inactive(m)) ==> AbortLoop(inactive, timeout, k) == U32 - 1
    ensures forall j :: k < j <= k + timeout && FirstInactiveAt(inactive, k, j) ==> AbortLoop(inactive, timeout, k) == timeout - (j - k)
    decreases timeout
  {
    if timeout > 0 && !inactive(k + 1) {
      AbortLoopValue(inactive, timeout - 1, k + 1);
      forall j | k < j <= k + timeout && FirstInactiveAt(inactive, k, j)
        ensures FirstInactiveAt(inactive, k + 1, j)
      {
      }
    }
  }

  /** GDMA_Abort as written: TRUE unless the counter is 0 after the loop. */
  function AbortAsWritten(inactive: nat -> bool): (ok: bool) {
    AbortLoop(inactive, AbortTimeout, 0) != 0
  }

  /**
   * As written the verdict is FALSE exactly when the 500th check is the first
   * to see the channel inactive: a channel that never stops is reported
   * aborted, and one that stops on the last check is reported stuck.
   */
  lemma AbortAsWrittenVerdict(inactive: nat -> bool)
    ensures !AbortAsWritten(inactive) <==> FirstInactiveAt(inactive, 0, AbortTimeout)
  {
    AbortLoopValue(inactive, AbortTimeout, 0);
    if forall m :: 0 < m <= AbortTimeout ==> !inactive(m) {
    } else {
      var j := FirstIn(inactive, 1, AbortTimeout);
      assert FirstInactiveAt(inactive, 0, j);
    }
  }

  /** The first check in `first .. last` that sees the channel inactive, given that one does. */
  function FirstIn(inactive: nat -> bool, first: nat, last: nat): (j: nat)
    requires 1 <= first && exists m :: first <= m <= last && inactive(m)
    ensures first <= j <= last && inactive(j) && (forall m :: first <= m < j ==> !inactive(m))
    decreases last - first
  {
    if inactive(first) then first else FirstIn(inactive, first + 1, last)
  }

  /** What GDMA_Abort returns and leaves in CFG_LOW. */
  datatype AbortOutcome = AbortOutcome(ok: bool, cfgLow: bv32)

  /**
   * GDMA_Abort as written: suspend, wait, and on FALSE resume.  On TRUE the
   * channel is disabled (GDMA_Cmd, not part of this model) and stays
   * suspended.
   */
  function Abort(l: Layout, cfgLow: bv32, inactive: nat -> bool): (r: AbortOutcome)
    ensures r.ok <==> !FirstInactiveAt(inactive, 0, AbortTimeout)
    ensures r.ok ==> r.cfgLow == Suspend(l, cfgLow)
    ensures !r.ok ==> r.cfgLow == Resume(l, cfgLow)
  {
    AbortAsWrittenVerdict(inactive);
    ResumeAfterSuspend(l, cfgLow);
    var suspended := Suspend(l, cfgLow);
    if AbortLoop(inactive, AbortTimeout, 0) == 0 then AbortOutcome(false, Resume(l, suspended))
    else AbortOutcome(true, suspended)
  }

  /** A channel that never goes inactive: the loop runs out, and still TRUE comes back. */
  lemma AbortNeverInactive()
    ensures AbortAsWritten(m => false)
  {
    AbortLoopValue(m => false, AbortTimeout, 0);
  }

  /**
   * The intended wait: decrement only after a failed check, so the counter
   * reaches 0 exactly when all 500 checks failed.
   */
  function AbortWait(inactive: nat -> bool, timeout: nat, k: nat): (t: nat)
    ensures t <= timeout
    decreases timeout
  {
    if timeout == 0 then 0
    else if inactive(k + 1) then timeout
    else AbortWait(inactive, timeout - 1, k + 1)
  }

  function AbortCorrected(inactive: nat -> bool): (ok: bool) {
    AbortWait(inactive, AbortTimeout, 0) != 0
  }

  lemma {:induction false} AbortWaitZero(inactive: nat -> bool, timeout: nat, k: nat)
    ensures AbortWait(inactive, timeout, k) == 0 <==> forall m :: k < m <= k + timeout ==> !inactive(m)
    decreases timeout
  {
    if timeout > 0 && !inactive(k + 1) {
      AbortWaitZero(inactive, timeout - 1, k + 1);
    }
  }

  /** With the decrement after the check, TRUE means one of the 500 checks saw the channel stop. */
  lemma AbortCorrectedVerdict(inactive: nat -> bool)
    ensures AbortCorrected(inactive) <==> exists m :: 1 <= m <= AbortTimeout && inactive(m)
  {
    AbortWaitZero(inactive, AbortTimeout, 0);
  }

  /**
   * GDMA_Abort with the intended wait: TRUE, with the channel left suspended,
   * exactly when one of the 500 checks saw it stop; otherwise resumed and FALSE.
   */
  function AbortIntended(l: Layout, cfgLow: bv32, inactive: nat -> bool): (r: AbortOutcome)
    ensures r.ok <==> exists m :: 1 <= m <= AbortTimeout && inactive(m)
    ensures r.ok ==> r.cfgLow == Suspend(l, cfgLow)
    ensures !r.ok ==> r.cfgLow == Resume(l, cfgLow)
  {
    AbortCorrectedVerdict(inactive);
    ResumeAfterSuspend(l, cfgLow);
    var suspended := Suspend(l, cfgLow);
    if AbortWait(inactive, AbortTimeout, 0) == 0 then AbortOutcome(false, Resume(l, suspended))
    else AbortOutcome(true, suspended)
  }
}
