/**
 * Three small routines of ameba_rom_patch.c besides the formatters:
 *
 * - OTP_LogicalMap_Read: after the ROM reads the whole logical map into the
 *   buffer, `len` bytes starting at `addr` are moved down to the start of it;
 * - FLASH_TxData: the bytes pushed into the SPI flash controller FIFO for a
 *   page program: command, address, then the data in an unaligned byte
 *   prefix, whole 32-bit words and a byte tail;
 * - RCC_PeriphClockEnableChk: the top two bits of the clock id select one of
 *   three clock-enable registers, the other 30 bits are tested in it.
 *
 * Register contents and the ROM's return value are inputs; header constants
 * that are not visible here are parameters.
 */
module RomPatch {

  import opened Bits

  // ---------------------------------------------------------------------------
  // OTP_LogicalMap_Read
  // ---------------------------------------------------------------------------

  /** How many bytes the loop moves: until `len` bytes or the end of the logical map. */
  function CopyCount(addr: nat, len: nat, lmapLen: nat): (n: nat)
    ensures addr + n <= lmapLen || n == 0
    ensures n <= len
  {
    if addr >= lmapLen then 0 else if len < lmapLen - addr then len else lmapLen - addr
  }

  /**
   * OTP_LogicalMap_Read: `romRet` is what _EFUSE_LogicalMap_Read returned for
   * reading the logical map `lmap` into the buffer (1 is success).  On
   * success, `buf[i] = buf[addr++]` moves the requested bytes to the front;
   * the rest of the buffer keeps the map.
   */
  method OtpLogicalMapRead(lmap: seq<bv8>, romRet: int, addr: nat, len: nat, lmapLen: nat) returns (ok: bool, buf: seq<bv8>)
    requires lmapLen <= |lmap|
    ensures ok <==> romRet == 1
    ensures |buf| == |lmap|
    ensures ok ==> forall i :: 0 <= i < CopyCount(addr, len, lmapLen) ==> buf[i] == lmap[addr + i]
    ensures ok ==> forall i :: CopyCount(addr, len, lmapLen) <= i < |buf| ==> buf[i] == lmap[i]
  {
    buf := lmap;
    ok := romRet == 1;
    if !ok {
      return;
    }
    var i, a := 0, addr;
    while i < len && a < lmapLen
      invariant a == addr + i && i <= CopyCount(addr, len, lmapLen)
      invariant |buf| == |lmap|
      invariant forall k :: 0 <= k < i ==> buf[k] == lmap[addr + k]
      invariant forall k :: i <= k < |buf| ==> buf[k] == lmap[k]
      decreases len - i
    {
      buf := buf[i := buf[a]];
      i, a := i + 1, a + 1;
    }
  }

  // ---------------------------------------------------------------------------
  // FLASH_TxData
  // ---------------------------------------------------------------------------

  /** `U32BLOCKSIZE` */
  const WordSize: nat := 4

  /** A write to the FIFO data register: one data byte, or the word at a data index. */
  datatype Push = Byte(at: nat) | Word(at: nat)

  /** The 32-bit little-endian load of four bytes (the core's `*(u32 *)`). */
  function LoadLE(b: seq<bv8>): bv32
    requires |b| == 4
  {
    (b[0] as bv32) | (b[1] as bv32 << 8) | (b[2] as bv32 << 16) | (b[3] as bv32 << 24)
  }

  /** The four bytes a word write puts into the FIFO, lowest byte first. */
  function WordBytes(w: bv32): (b: seq<bv8>)
    ensures |b| == 4
  {
    [(w & 0xFF) as bv8, ((w >> 8) & 0xFF) as bv8, ((w >> 16) & 0xFF) as bv8, ((w >> 24) & 0xFF) as bv8]
  }

  lemma ByteRoundTrip(b0: bv8, b1: bv8, b2: bv8, b3: bv8)
    ensures var w := (b0 as bv32) | (b1 as bv32 << 8) | (b2 as bv32 << 16) | (b3 as bv32 << 24);
            && (w & 0xFF) as bv8 == b0
            && ((w >> 8) & 0xFF) as bv8 == b1
            && ((w >> 16) & 0xFF) as bv8 == b2
            && ((w >> 24) & 0xFF) as bv8 == b3
  {
  }

  /** Pushing a loaded word puts the four bytes into the FIFO in memory order. */
  lemma WordRoundTrip(b: seq<bv8>)
    requires |b| == 4
    ensures WordBytes(LoadLE(b)) == b
  {
    ByteRoundTrip(b[0], b[1], b[2], b[3]);
  }

  function Range(n: nat): (r: seq<nat>)
    ensures |r| == n && forall i :: 0 <= i < n ==> r[i] == i
  {
    seq(n, i => i)
  }

  /** The data indices a list of pushes sends, in order. */
  function Indices(p: seq<Push>): seq<nat> {
    if |p| == 0 then []
    else
      var last := p[|p| - 1];
      Indices(p[..|p| - 1]) + (if last.Byte? then [last.at] else [last.at, last.at + 1, last.at + 2, last.at + 3])
  }

  lemma IndicesByte(p: seq<Push>, n: nat)
    requires Indices(p) == Range(n)
    ensures Indices(p + [Byte(n)]) == Range(n + 1)
  {
    assert (p + [Byte(n)])[..|p|] == p;
  }

  lemma IndicesWord(p: seq<Push>, n: nat)
    requires Indices(p) == Range(n)
    ensures Indices(p + [Word(n)]) == Range(n + 4)
  {
    assert (p + [Word(n)])[..|p|] == p;
  }

  /** `p` has sent exactly the first `tx` data bytes, in order, and `out` holds them. */
  predicate Sent(data: seq<bv8>, p: seq<Push>, out: seq<bv8>, tx: nat) {
    tx <= |data| && out == data[..tx] && Indices(p) == Range(tx)
  }

  /** Word reads of the data phase are aligned. */
  predicate WordAligned(p: seq<Push>, misalign: nat, from: nat) {
    forall j :: from <= j < |p| ==> p[j].Word? && (misalign + p[j].at) % WordSize == 0
  }

  /** Sending the next byte on its own extends what has been sent by one. */
  lemma SentByte(data: seq<bv8>, p: seq<Push>, out: seq<bv8>, tx: nat)
    requires Sent(data, p, out, tx) && tx < |data|
    ensures Sent(data, p + [Byte(tx)], out + [data[tx]], tx + 1)
  {
    IndicesByte(p, tx);
    assert out + [data[tx]] == data[..tx + 1];
  }

  /** The unaligned prefix: bytes until the data pointer is word aligned. */
  method BytePrefix(data: seq<bv8>, misalign: nat) returns (p: seq<Push>, out: seq<bv8>, tx: nat)
    requires misalign < WordSize
    ensures Sent(data, p, out, tx) && |p| == tx
    ensures misalign == 0 ==> tx == 0
    ensures misalign != 0 ==> tx == Min(|data|, WordSize - misalign)
    ensures forall j :: 0 <= j < |p| ==> p[j] == Byte(j) && 0 < misalign + j < WordSize
    ensures tx < |data| ==> misalign + tx == 0 || misalign + tx == WordSize
  {
    tx := 0;
    p, out := [], [];
    if misalign != 0 {
      while tx < |data| && tx < WordSize - misalign
        invariant tx <= WordSize - misalign
        invariant Sent(data, p, out, tx) && |p| == tx
        invariant forall j :: 0 <= j < |p| ==> p[j] == Byte(j)
      {
        SentByte(data, p, out, tx);
        p, out := p + [Byte(tx)], out + [data[tx]];
        tx := tx + 1;
      }
    }
  }

  /** The aligned middle: whole words while at least four bytes remain. */
  method WordRun(data: seq<bv8>, misalign: nat, p0: seq<Push>, out0: seq<bv8>, tx0: nat) returns (p: seq<Push>, out: seq<bv8>, tx: nat)
    requires Sent(data, p0, out0, tx0)
    requires tx0 < |data| ==> (misalign + tx0) % WordSize == 0
    ensures Sent(data, p, out, tx) && |data| - tx < WordSize
    ensures |p0| <= |p| && p[..|p0|] == p0 && WordAligned(p, misalign, |p0|)
  {
    p, out, tx := p0, out0, tx0;
    while |data| - tx >= WordSize
      invariant Sent(data, p, out, tx)
      invariant tx < |data| ==> (misalign + tx) % WordSize == 0
      invariant |p0| <= |p| && p[..|p0|] == p0 && WordAligned(p, misalign, |p0|)
      decreases |data| - tx
    {
      var w := data[tx..tx + 4];
      WordRoundTrip(w);
      IndicesWord(p, tx);
      p, out := p + [Word(tx)], out + WordBytes(LoadLE(w));
      assert data[..tx] + w == data[..tx + 4];
      tx := tx + WordSize;
    }
  }

  /** The tail: the last bytes, fewer than a word. */
  method ByteTail(data: seq<bv8>, p0: seq<Push>, out0: seq<bv8>, tx0: nat) returns (p: seq<Push>, out: seq<bv8>)
    requires Sent(data, p0, out0, tx0) && |data| - tx0 < WordSize
    ensures Sent(data, p, out, |data|)
    ensures |p0| <= |p| && p[..|p0|] == p0
    ensures forall j :: |p0| <= j < |p| ==> p[j].Byte? && |data| - p[j].at < WordSize
  {
    var tx := tx0;
    p, out := p0, out0;
    while tx < |data|
      invariant Sent(data, p, out, tx) && tx0 <= tx
      invariant |p0| <= |p| && p[..|p0|] == p0
      invariant forall j :: |p0| <= j < |p| ==> p[j].Byte? && |data| - p[j].at < WordSize
    {
      IndicesByte(p, tx);
      p, out := p + [Byte(tx)], out + [data[tx]];
      tx := tx + 1;
      assert out == data[..tx];
    }
  }

  /**
   * The data phase: `misalign` is `UNALIGNED32(pData)`.  Bytes are pushed
   * until the data pointer is word aligned, then whole words, then the tail
   * bytes.  Returns the pushes and the bytes they put into the FIFO: every data
   * byte exactly once and in order, words only from aligned addresses, and a
   * byte at an aligned address only when less than a word is left.
   */
  method TxDataPhase(data: seq<bv8>, misalign: nat) returns (p: seq<Push>, out: seq<bv8>)
    requires |data| <= 256 && misalign < WordSize
    ensures out == data
    ensures Indices(p) == Range(|data|)
    ensures forall j :: 0 <= j < |p| && p[j].Word? ==> (misalign + p[j].at) % WordSize == 0
    ensures forall j :: 0 <= j < |p| && p[j].Byte? && (misalign + p[j].at) % WordSize == 0 ==> |data| - p[j].at < WordSize
  {
    var p1, o1, t1 := BytePrefix(data, misalign);
    var p2, o2, t2 := WordRun(data, misalign, p1, o1, t1);
    p, out := ByteTail(data, p2, o2, t2);
    assert out == data[..|data|] == data;
    forall j | 0 <= j < |p|
      ensures p[j].Word? ==> (misalign + p[j].at) % WordSize == 0
      ensures p[j].Byte? && (misalign + p[j].at) % WordSize == 0 ==> |data| - p[j].at < WordSize
    {
      if j < |p1| {
        assert p[j] == p2[j] == p1[j];
      } else if j < |p2| {
        assert p[j] == p2[j];
      }
    }
  }

  /** The address phase length the flash was set up with. */
  datatype AddrPhase = Addr3 | Addr4 | AddrOther

  /** `addrbyte[0..3]`: the address bytes, least significant first. */
  function AddrBytes(a: bv32): (b: seq<bv8>)
    ensures |b| == 4
  {
    [(a & 0xFF) as bv8, ((a & 0xFF00) >> 8) as bv8, ((a & 0xFF_0000) >> 16) as bv8, ((a & 0xFF00_0000) >> 24) as bv8]
  }

  lemma AddrBytesRaw(a: bv32)
    ensures var w := ((a & 0xFF) as bv8 as bv32) | (((a & 0xFF00) >> 8) as bv8 as bv32 << 8)
                     | (((a & 0xFF_0000) >> 16) as bv8 as bv32 << 16) | (((a & 0xFF00_0000) >> 24) as bv8 as bv32 << 24);
            w == a
  {
  }

  /** The address bytes put back together give the address. */
  lemma AddrBytesRoundTrip(a: bv32)
    ensures LoadLE(AddrBytes(a)) == a
  {
    AddrBytesRaw(a);
  }

  /**
   * The command and address writes: with a 3-byte address one word
   * `FLASH_CMD_PP | addrbyte[2] << 8 | addrbyte[1] << 16 | addrbyte[0] << 24`;
   * with a 4-byte address the command byte and then the word of the four
   * address bytes in reverse; any other setting writes neither.
   */
  function CommandBytes(phase: AddrPhase, a: bv32, cmd: bv8): (b: seq<bv8>) {
    var ab := AddrBytes(a);
    match phase
    case Addr3 => WordBytes((cmd as bv32) | (ab[2] as bv32 << 8) | (ab[1] as bv32 << 16) | (ab[0] as bv32 << 24))
    case Addr4 => [cmd] + WordBytes((ab[3] as bv32) | (ab[2] as bv32 << 8) | (ab[1] as bv32 << 16) | (ab[0] as bv32 << 24))
    case AddrOther => []
  }

  /** On the wire the command comes first, then the address most significant byte first. */
  lemma CommandBytesOrder(phase: AddrPhase, a: bv32, cmd: bv8)
    ensures var ab := AddrBytes(a);
            && (phase == Addr3 ==> CommandBytes(phase, a, cmd) == [cmd, ab[2], ab[1], ab[0]])
            && (phase == Addr4 ==> CommandBytes(phase, a, cmd) == [cmd, ab[3], ab[2], ab[1], ab[0]])
            && (phase == AddrOther ==> CommandBytes(phase, a, cmd) == [])
  {
    var ab := AddrBytes(a);
    if phase == Addr3 {
      WordRoundTrip([cmd, ab[2], ab[1], ab[0]]);
    } else if phase == Addr4 {
      WordRoundTrip([ab[3], ab[2], ab[1], ab[0]]);
    }
  }

  /**
   * How a function guarded by assert_param ends: USE_FULL_ASSERT is defined,
   * so a failed check calls io_assert_failed, which never returns.
   */
  datatype Checked<T> = Halts | Returns(value: T)

  /** The two assert_param checks of FLASH_TxData: at most 256 bytes, within one 256-byte page. */
  predicate TxDataAccepted(startAddr: bv32, len: nat) {
    len <= 256 && (startAddr & 0xFF) as nat + len <= 0x100
  }

  /**
   * FLASH_TxData: the bytes the FIFO receives, or the halt when either
   * assert_param check fails.  `misalign` is the offset of pData within its
   * word.
   */
  method FlashTxData(phase: AddrPhase, startAddr: bv32, cmd: bv8, data: seq<bv8>, misalign: nat) returns (o: Checked<seq<bv8>>)
    requires misalign < WordSize
    ensures o.Halts? <==> !TxDataAccepted(startAddr, |data|)
    ensures o.Returns? ==> o.value == CommandBytes(phase, startAddr, cmd) + data
    ensures o.Returns? && phase == Addr3 ==> o.value[..4] == [cmd] + [AddrBytes(startAddr)[2], AddrBytes(startAddr)[1], AddrBytes(startAddr)[0]]
  {
    if !TxDataAccepted(startAddr, |data|) {
      return Halts;
    }
    var p, out := TxDataPhase(data, misalign);
    o := Returns(CommandBytes(phase, startAddr, cmd) + out);
    CommandBytesOrder(phase, startAddr, cmd);
  }

  // ---------------------------------------------------------------------------
  // RCC_PeriphClockEnableChk
  // ---------------------------------------------------------------------------

  /**
   * The header constants: the three register selector values SYS_CLK_CTRL1..3
   * and the offsets REG_HS_PERI_CLK_CTRL1..3 they select.
   */
  datatype ClkConsts = ClkConsts(ctrl1: bv32, ctrl2: bv32, ctrl3: bv32, off1: bv32, off2: bv32, off3: bv32)

  /** `(APBPeriph_Clock_in >> 30) & 0x03` */
  function Selector(clk: bv32): (s: bv32)
    ensures s < 4
  {
    (clk >> 30) & 3
  }

  /** `APBPeriph_Clock_in & ~(BIT(31) | BIT(30))` */
  function ClockMask(clk: bv32): (m: bv32) {
    clk & !(0x8000_0000 | 0x4000_0000)
  }

  /** The clock id splits into selector and mask without loss, and the mask never reaches bits 30 and 31. */
  lemma ClockIdSplit(clk: bv32)
    ensures ClockMask(clk) & 0xC000_0000 == 0
    ensures (Selector(clk) << 30) | ClockMask(clk) == clk
  {
  }

  /** The register offset the switch picks; 0 when no case matches. */
  function ClkOffset(k: ClkConsts, sel: bv32): bv32 {
    if sel == k.ctrl1 then k.off1
    else if sel == k.ctrl2 then k.off2
    else if sel == k.ctrl3 then k.off3
    else 0
  }

  /**
   * RCC_PeriphClockEnableChk: `read` is HAL_READ32(SYSTEM_CTRL_BASE, offset).
   * The assert_param halts on selector 0.
   */
  function PeriphClockEnableChk(k: ClkConsts, read: bv32 -> bv32, clk: bv32): (r: Checked<bool>)
    ensures r.Halts? <==> Selector(clk) == 0
  {
    if Selector(clk) == 0 then Halts
    else Returns(read(ClkOffset(k, Selector(clk))) & ClockMask(clk) != 0)
  }

  /**
   * The selected register is tested against the low 30 bits of the id: bits
   * 30 and 31 of the enable register are never looked at.
   */
  lemma ClockEnableChkLowBits(k: ClkConsts, read: bv32 -> bv32, clk: bv32)
    ensures Selector(clk) != 0 ==>
              PeriphClockEnableChk(k, read, clk) == Returns(read(ClkOffset(k, Selector(clk))) & 0x3FFF_FFFF & clk != 0)
  {
    MaskedTest(read(ClkOffset(k, Selector(clk))), clk);
  }

  lemma MaskedTest(x: bv32, clk: bv32)
    ensures x & ClockMask(clk) == x & 0x3FFF_FFFF & clk
  {
  }

  /**
   * A clock id whose low 30 bits are all clear is never reported enabled: it
   * reads FALSE, or halts when it is 0 and so selects no register.
   */
  lemma ClockEnableChkNoBits(k: ClkConsts, read: bv32 -> bv32, clk: bv32)
    requires clk & 0x3FFF_FFFF == 0
    ensures PeriphClockEnableChk(k, read, clk) == if clk == 0 then Halts else Returns(false)
  {
    ClockIdSplit(clk);
  }
}
