# Ameba HAL core, modelled in Dafny

This project models the sequential logic at the core of the Realtek Ameba
(AmebaD) hardware abstraction layer and proves properties of it. Hardware
reads become inputs: a pass/fail sequence for the PSRAM sweep, poll oracles
`nat -> bool` for the USB clock and the GDMA abort, and register words passed
in. Register writes become outputs: words, or sequences of register writes.
Register bit masks whose headers are not part of this model are parameters
rather than invented constants. Examples are the GDMA `Layout`, the
`WDG_BIT_*` masks, the PLL field masks and the PSRAM `CalLayout`.

One module per source file:

- `Psram` (psram.dfy): `PSRAM_calibration`, the longest-window sweep over
  N = 0..31 with the CAL_PARA and CAL_CTRL writes, plus `PSRAM_CTRL_CA_Gen`
  and the DRR timing arithmetic.
- `Ipc` and `IpcConfig` (ipc.dfy, ipccfg.dfy): the two-bank IPC mailbox. It
  holds the USR words of each core, the shared `Messages` arrays, the static
  `ipc_msg_temp` and a log of raised interrupts. On top of it sit
  `ipc_table_init`, `ipc_send_message` and `ipc_get_message`, and the two
  concrete channel tables.
- `Wdg` (wdg.dfy): the `WDG_Scalar` divisor search, written as a search over
  a table of the 12 candidates, and the VENDOR register updates.
- `Pll` (pll.dfy): `PLL_Div` and `PLL_Sel`, the enable and disable effects of
  `PLL_I2S_Set`/`PLL_PCM_Set`, and the FOF arithmetic and register writes of
  `PLL_I2S_ClkTune`/`PLL_PCM_ClkTune`.
- `Vector` (vector.dfy): the priority clamp and shift of `irq_register_check`.
- `Gdma` (gdma.dfy): the `GDMA_Init` word packing, the `GDMA_SetLLP` list walk,
  suspend and resume, and the `GDMA_Abort` timeout.
- `DiagFormat`, `DiagPrintf`, `DiagNano` and `SnFormat` (diagfmt.dfy,
  diagprintf.dfy, diagnano.dfy, snprintf.dfy): the reduced formatters of
  ameba_rom_patch.c. `DiagPutChar` appends to the output string, and varargs
  are a list of tagged values (`Num`, `Str`).
- `RomPatch` (rompatch.dfy): the `OTP_LogicalMap_Read` copy loop, the
  `FLASH_TxData` byte/word chunking and `RCC_PeriphClockEnableChk`.
- `ChipInfo` (chipinfo.dfy): `ChipInfo_GetSocName_ToBuf` and
  `CHIP_INFO_PRINT_BUF`.
- `Usb` (usb.dfy): the calibration-table choice, the pinmux save and restore,
  the bounded wait for the PHY clock and IRQ handler registration.
- `Rand` (rand2.dfy): the `Rand2`/`Rand3` generator step.
- `Bits` (bits.dfy): shared helpers (`Option`, `Min`, `Max`, `Pow2`, 32-bit wrap).

A formatter call ends in one of three ways:

- `Returned(out, ret)`: the characters emitted and the value returned.
- `ReadsPastEnd(out)`: the scan stepped over the format's terminating NUL,
  which is undefined behaviour in C.
- `BadArg(out)`: a conversion found no argument of its type, which is a
  `va_arg` mismatch in C.

Source paths below are relative to the repository root.

## Model

| member | source | states |
|---|---|---|
| Psram.Calibrate | ameba/amebad/source/fwlib/ram_hp/ameba_psram.c:376-452 | CAL_EN is cleared first, then CAL_PARA is written for N = 0..31 in order. The result is the earliest longest passing window. The call succeeds iff that window has at least 9 entries. On success the final J/N word is written and CAL_EN set (35 writes); on failure neither happens (33 writes). |
| Psram.Sweep | ameba/amebad/source/fwlib/ram_hp/ameba_psram.c:393-431 | The sweep loop writes the 32 sweep words in order and ends with the best window of the whole pass sequence. |
| Psram.SweepWrite | ameba/amebad/source/fwlib/ram_hp/ameba_psram.c:395 | One sweep step extends the trace of writes by the word for N. |
| Psram.SweepWord | ameba/amebad/source/fwlib/ram_hp/ameba_psram.c:379-395 | The word for N has N in the CAL_N field, and every bit outside that field is as the original CAL_PARA had it. |
| Psram.SweepTrace | ameba/amebad/source/fwlib/ram_hp/ameba_psram.c:393-395 | The k-th write of the sweep is CAL_PARA with N = k, for every k. |
| Psram.BestWindowIsEarliestLongestRun | ameba/amebad/source/fwlib/ram_hp/ameba_psram.c:405-428 | The recorded window is empty iff no N passes. Otherwise it is a maximal all-passing run with end - start + 1 = size. No passing run is longer, and among runs of equal length it is the earliest (a strictly longer run is needed to replace it). |
| Psram.StepKeepsInv | ameba/amebad/source/fwlib/ram_hp/ameba_psram.c:405-429 | Each loop turn keeps the tracker invariant: the current run is the run ending at N and the best is the earliest longest so far. This covers a failure resetting the current run to (-1, 0, -1) and a run still passing at N = 31 being compared. |
| Psram.FailKeeps | ameba/amebad/source/fwlib/ram_hp/ameba_psram.c:418-429 | A failing N changes neither the longest length nor where its earliest occurrence ends. |
| Psram.GrowRun | ameba/amebad/source/fwlib/ram_hp/ameba_psram.c:405-417 | A passing stretch grows the current run by one per N. The best is replaced only when the run becomes strictly longer. |
| Psram.AcceptedWindowBounds | ameba/amebad/source/fwlib/ram_hp/ameba_psram.c:435-443 | For a window of size at least 9, the margin m = (end - start)/2 - 2 lies in 2..13 and the centre c = (end + start)/2 satisfies start <= c <= end <= 31. |
| Psram.FinalWordOf | ameba/amebad/source/fwlib/ram_hp/ameba_psram.c:440-446 | The final CAL_PARA carries m in JMAX and J and c in N, in the low 20 bits. The bits above are those of the original word with the N field cleared. |
| Psram.ExampleWindow | ameba/amebad/source/fwlib/ram_hp/ameba_psram.c:405-443 | A sweep passing at 5..20 and 24..27 picks the window (5, 16, 20), with margin 5 and centre 12. |
| Psram.CaGenRoundTrip | ameba/amebad/source/fwlib/ram_hp/ameba_psram.c:193-205 | The six CA bytes give the address back (masked to the bits the layout keeps). CA[1] is 0, and CA[5] carries Burst, Space and RW in bits 5, 6 and 7. |
| Psram.CaGenIgnoresDroppedBits | ameba/amebad/source/fwlib/ram_hp/ameba_psram.c:199-204 | Address bits 7-10, 15-18, 23-26 and 31 never reach the CA bytes: two addresses that differ only there give identical output. |
| Psram.Drr | ameba/amebad/source/fwlib/ram_hp/ameba_psram.c:145-147 | Each DRR field is a least step count: tpu/m+1 is the least number of m-picosecond units that goes past tpu, where m is clk*1000 taken in u32, wrapped or not. tcem/clk is the largest number of whole clocks within tcem. tcph/clk+1 is the least number of clocks past tcph. |
| Psram.DrrPuUnwrapped | ameba/amebad/source/fwlib/ram_hp/ameba_psram.c:145 | When clk*1000 fits in u32, the power-up field is the least number of clk*1000 units past tpu. |
| Psram.DefaultDrr | ameba/amebad/source/fwlib/ram_hp/ameba_psram.c:42-45 | With the StructInit timing defaults the DRR fields are 8, 100 and 1. |
| Ipc.TableInit | ameba/amebad/source/fwlib/ram_common/ameba_ipc_api.c:19-30 | The scan visits entries up to the first sentinel and registers exactly those entries with a handler or IrqData. |
| Ipc.RegistrationsExact | ameba/amebad/source/fwlib/ram_common/ameba_ipc_api.c:19-30 | Channel i is registered iff i comes before the sentinel and entry i has a non-NULL func or IrqData. A registration carries that entry's func and IrqData. |
| Ipc.SentinelIndex | ameba/amebad/source/fwlib/ram_common/ameba_ipc_api.c:19-22 | The scan stops at the first entry whose type is 0xFFFFFFFF. |
| Ipc.Send | ameba/amebad/source/fwlib/ram_common/ameba_ipc_api.c:40-74 | The assert halts iff the stack check is on and the message lies inside the task stack. Otherwise the send returns 0 and raises the interrupt for the channel after the payload write. The peer's bank and `ipc_msg_temp` are left unchanged. |
| Ipc.SendFrame | ameba/amebad/source/fwlib/ram_common/ameba_ipc_api.c:64-69 | Channels 11..31 set Messages[ch] and store the array's address in USR[11]; every other channel writes USR[ch] directly. Nothing else in the own bank changes, and the peer's Messages array is untouched. |
| Ipc.Get | ameba/amebad/source/fwlib/ram_common/ameba_ipc_api.c:84-107 | Get changes only `ipc_msg_temp`. On channels 0..10 it returns the peer's USR[ch]. On channels above 10 it returns word ch of the array whose address is in the peer's USR[11]: a Messages entry when that address is one of the two arrays and ch < 32, otherwise a word outside the model. |
| Ipc.SendThenGet | ameba/amebad/source/fwlib/ram_common/ameba_ipc_api.c:98-104 | A send on one core followed by a get on the other returns the sent message, for every channel 0..31. |
| Ipc.SendKeepsOtherChannel | ameba/amebad/source/fwlib/ram_common/ameba_ipc_api.c:64-69 | A send on one channel does not change what a get on another channel 0..31 returns. |
| Ipc.RoutingInverse | ameba/amebad/source/fwlib/ram_common/ameba_ipc_api.c:46-50 | A core sends into its own bank and reads the peer's, so the two routings are inverses. KM4 reads the KM0 bank and every other core reads the KM4 bank. |
| Ipc.GetIdempotent | ameba/amebad/source/fwlib/ram_common/ameba_ipc_api.c:83-106 | Repeating a get with no send in between returns the same value and leaves the same state. |
| Ipc.InitialMailbox | ameba/amebad/source/fwlib/ram_common/ameba_ipc_api.c:32 | The mailbox starts with every Messages entry zero, as the array's initialiser says, and with no interrupt requested. The USR words are also zero, which is an assumption about their reset value. |
| IpcConfig.SentinelAtEnd | ameba/usrcfg/amebad/ameba_ipccfg.c:46 | A table whose only 0xFFFFFFFF entry is the last one is scanned up to that entry. |
| IpcConfig.ZephyrRegistersNothing | ameba/usrcfg/amebad/ameba_ipccfg.c:12 | Under Zephyr the CM4 table is the sentinel alone, and the scan registers nothing. |
| IpcConfig.Cm4Registrations | ameba/usrcfg/amebad/ameba_ipccfg.c:13-16 | The non-Zephyr CM4 table registers exactly channels 0 and 2. Channel 3 is IPC_USER_POINT with no handler. |
| IpcConfig.Km0Registrations | ameba/usrcfg/amebad/ameba_ipccfg.c:57-90 | The KM0 table has 32 entries before the sentinel and registers exactly channels 0, 1, 2 and 31. Channel 1 is registered through its IrqData. Channel 31 is IPC_USER_POINT with the tickless handler. |
| Wdg.ScalarIsEarliestMinimum | ameba/amebad/source/fwlib/ram_common/ameba_wdg.c:20-44 | The search returns nothing iff no CountId 0..11 is accepted. Otherwise it returns an accepted CountId with its DivFactor (> 0, with 100*Period below the resulting period). No accepted candidate has a shorter period, and every earlier accepted candidate has a strictly longer one. |
| Wdg.Count | ameba/amebad/source/fwlib/ram_common/ameba_wdg.c:29-30 | Count(id) + 1 = 2^(id+1), so Count(0) = 1 and the counts run 1, 3, 7, ..., 4095; each next Count is 2*Count+1. |
| Wdg.SearchCorrect | ameba/amebad/source/fwlib/ram_common/ameba_wdg.c:29-41 | Running the loop from any state that satisfies the search invariant ends with the invariant over all 12 candidates. |
| Wdg.ScalarZero | ameba/amebad/source/fwlib/ram_common/ameba_wdg.c:33-35 | Period 0 is never accepted, so neither output is written. |
| Wdg.ScalarForReset | ameba/amebad/source/fwlib/ram_common/ameba_wdg.c:127 | The 5 ms asked for by WDG_Reset gives CountId 0 with DivFactor 166. |
| Wdg.InitWordFields | ameba/amebad/source/fwlib/ram_common/ameba_wdg.c:58-65 | VENDOR holds DivFac & 0xFFFF in bits 0-15 and Count & 0xF in bits 25-28, plus CLEAR, RST_MODE and ISR_CLEAR. The enable byte (bits 16-23) holds only those flag bits. |
| Wdg.Km0CtrlWord | ameba/amebad/source/fwlib/ram_common/ameba_wdg.c:67-73 | The reset-all bit of KM0_CTRL is set iff RstAllPERI is non-zero; every other bit is kept. |
| Wdg.IrqClear | ameba/amebad/source/fwlib/ram_common/ameba_wdg.c:82-90 | ISR_CLEAR is set and every other VENDOR bit is kept. |
| Wdg.Refresh | ameba/amebad/source/fwlib/ram_common/ameba_wdg.c:218-225 | CLEAR is set and every other VENDOR bit is kept. |
| Wdg.RefreshIdempotent | ameba/amebad/source/fwlib/ram_common/ameba_wdg.c:218-225 | A second refresh writes the same word as the first. |
| Wdg.CmdWord | ameba/amebad/source/fwlib/ram_common/ameba_wdg.c:176-185 | Only the ENABLE bit changes: set for ENABLE, cleared otherwise. |
| Wdg.Cmd | ameba/amebad/source/fwlib/ram_common/ameba_wdg.c:174-188 | Two VENDOR writes: the enable change, then the ISR clear on top of it. |
| Wdg.CmdEnableDisable | ameba/amebad/source/fwlib/ram_common/ameba_wdg.c:179-183 | Disabling after enabling leaves the original word with ENABLE clear. |
| Wdg.Enable | ameba/amebad/source/fwlib/ram_common/ameba_wdg.c:197-209 | Two VENDOR writes: the interrupt-mode enable word, then the ISR clear. |
| Wdg.EnableWordBits | ameba/amebad/source/fwlib/ram_common/ameba_wdg.c:201-205 | RST_MODE is cleared (unless it is the enable bit itself) and ENABLE is set. |
| Wdg.EnableWordFrame | ameba/amebad/source/fwlib/ram_common/ameba_wdg.c:199-206 | Bits other than RST_MODE, ISR_CLEAR and ENABLE are kept. |
| Wdg.IrqInitWordBits | ameba/amebad/source/fwlib/ram_common/ameba_wdg.c:143-154 | Interrupt mode: RST_MODE is cleared, ISR_CLEAR set, and every other bit kept. |
| Pll.SetFieldBits | ameba/amebad/source/fwlib/ram_common/ameba_pll.c:18-21 | A read-modify-write of a field whose new bits fit inside it leaves exactly those bits in the field and keeps everything outside. |
| Pll.SetFieldFrame | ameba/amebad/source/fwlib/ram_common/ameba_pll.c:18-21 | Even when the new bits spill out of the field (the divider is not masked), bits outside both are kept. |
| Pll.PlaceFits | ameba/amebad/source/fwlib/ram_common/ameba_pll.c:19-20 | A value within the mask, shifted by the field's shift, stays inside the shifted mask. |
| Pll.DivSpills | ameba/amebad/source/fwlib/ram_common/ameba_pll.c:18-21 | An unmasked divider wider than its field sets bits outside it. |
| Pll.Sel | ameba/amebad/source/fwlib/ram_common/ameba_pll.c:28-40 | One CTRL3 write iff sel is PLL_PCM or PLL_I2S, replacing only the clock-select field with sel; otherwise nothing is written. |
| Pll.Set | ameba/amebad/source/fwlib/ram_common/ameba_pll.c:47-108 | ENABLE with RDY already set returns at once. ENABLE without RDY powers up. DISABLE writes the CTRL0 word with the four enable bits cleared. |
| Pll.DisableWordBits | ameba/amebad/source/fwlib/ram_common/ameba_pll.c:103-107 | Disable clears CLK_EN, DIV2_EN, EN and DIV_EN and keeps every other CTRL0 bit. |
| Pll.Fof | ameba/amebad/source/fwlib/ram_common/ameba_pll.c:213-219 | Faster adds ppm*num/den (multiply before divide) to the base, Slower subtracts it, and other actions keep the base. |
| Pll.FofRanges | ameba/amebad/source/fwlib/ram_common/ameba_pll.c:190-219 | For ppm <= 100, the I2S FOF stays within 0x92a ± 133 and the PCM FOF within 0x1038 ± 120. Neither subtraction underflows, and faster and slower are symmetric about the base. |
| Pll.ClkTune | ameba/amebad/source/fwlib/ram_common/ameba_pll.c:185-233 | PLL_AUTO writes only CTRL0 with BIT2 set. Any other action writes five words in order: CTRL0 with BIT2 clear; CTRL1 with the DIVN field replaced; CTRL3 with FOF and FON replaced; CTRL1 with TRIG_RREQ_EN set (the trigger write); CTRL1 with TRIG_RREQ_EN cleared again. |
| Pll.TrigPulse | ameba/amebad/source/fwlib/ram_common/ameba_pll.c:225-232 | Setting then clearing TRIG_RREQ_EN leaves CTRL1 with that bit clear and the others as before the pulse. |
| Vector.Clamp | ameba/amebad/source/fwlib/include/ameba_vector.h:101-103 | A priority above MAX_IRQ_PRIORITY_VALUE becomes that maximum; others are kept. |
| Vector.RegisterCheck | ameba/amebad/source/fwlib/include/ameba_vector.h:100-107 | irq_register receives the handler, IRQ number and data unchanged. |
| Vector.ForwardedPriorityBounds | ameba/amebad/source/fwlib/include/ameba_vector.h:83-105 | The forwarded priority is the clamped value shifted by IRQ_PRIORITY_SHIFT. It is at most 14 (CM4) or 12 (KM0), and it gives back the original priority when that was in range. |
| Vector.ForwardedPriorityMonotone | ameba/amebad/source/fwlib/include/ameba_vector.h:100-106 | The forwarded priority is non-decreasing in the input priority. |
| Vector.InterruptEnIgnoresPriority | ameba/amebad/source/fwlib/include/ameba_vector.h:64 | InterruptEn discards its priority argument. |
| Rand.LcgInverse | ameba/amebad/source/lib/chipinfo/ameba_rand2.c:25 | rand_x' = 69069*rand_x + 12345 + seed mod 2^32 is a bijection: the modular inverse gives rand_x back. |
| Rand.XorshiftInverse | ameba/amebad/source/lib/chipinfo/ameba_rand2.c:26-28 | The xorshift with shifts 13, 17, 5 is a bijection on 32-bit words, with an explicit inverse. |
| Rand.XorshiftZero | ameba/amebad/source/lib/chipinfo/ameba_rand2.c:26-28 | The xorshift maps 0 to 0 and nothing else to 0. |
| Rand.MwcExact | ameba/amebad/source/lib/chipinfo/ameba_rand2.c:29-31 | t = 698769069*z + c fits in 64 bits, with c' = t >> 32 and z' = t mod 2^32 recombining to t exactly. |
| Rand.Rand2 | ameba/amebad/source/lib/chipinfo/ameba_rand2.c:17-34 | The step keeps every state word 32-bit, returns a 32-bit value and leaves Rand3's statics alone. |
| Rand.Rand3 | ameba/amebad/source/lib/chipinfo/ameba_rand2.c:36-53 | The step keeps every state word 32-bit, returns a 32-bit value and leaves Rand2's statics alone. |
| Rand.Rand3SeedZero | ameba/amebad/source/lib/chipinfo/ameba_rand2.c:44 | With seed 0 and equal statics, Rand3 returns what Rand2 returns. |
| Rand.SharedX | ameba/amebad/source/lib/chipinfo/ameba_rand2.c:15-25 | The two generators share rand_x: after Rand3 then Rand2 it has taken both LCG steps, while Rand2's own statics evolve as if Rand3 had not run. |
| Rand.Initial | ameba/amebad/source/lib/chipinfo/ameba_rand2.c:15-21 | The statics start 32-bit (y 362436, z 521288629, c 7654321). |
| Gdma.Init | ameba/amebad/source/fwlib/ram_common/ameba_gdma_ram.c:11-95 | An unsupported direction is rejected before any register write. Otherwise DmaCfg is set, and the channel is disabled first iff BIT(ch) or BIT(ch+8) is set. SAR and DAR take the addresses, CTL_LOW is the packed control word, CTL_HIGH is BlockSize & BLOCK_BS, and CFG_HIGH is as described below. |
| Gdma.CtlLowRoundTrip | ameba/amebad/source/fwlib/ram_common/ameba_gdma_ram.c:62-71 | CTL_LOW packs INT_EN and the nine control fields at their shifts without overlap: unpacking gives every field back. |
| Gdma.ChEnMaskBits | ameba/amebad/source/fwlib/ram_common/ameba_gdma_ram.c:17 | The channel-enable mask is BIT(ch) in the low byte and BIT(ch) again in bits 8-15, nothing else. |
| Gdma.CfgHighFields | ameba/amebad/source/fwlib/ram_common/ameba_gdma_ram.c:86-89 | CFG_HIGH carries the source and destination handshake interfaces at shifts 7 and 11. |
| Gdma.CfgHighSecureClears | ameba/amebad/source/fwlib/ram_common/ameba_gdma_ram.c:35-39 | A secure channel has SECURE_DISABLE clear in CFG_HIGH. |
| Gdma.CfgHighNonSecureSets | ameba/amebad/source/fwlib/ram_common/ameba_gdma_ram.c:35-39 | A non-secure channel has SECURE_DISABLE set in CFG_HIGH. |
| Gdma.InitReloadBits | ameba/amebad/source/fwlib/ram_common/ameba_gdma_ram.c:83-84 | CFG_LOW holds only the two reload bits, source in bit 30 and destination in bit 31. |
| Gdma.SetLlp | ameba/amebad/source/fwlib/ram_common/ameba_gdma_ram.c:106-154 | CTL_HIGH gets the first node's block size ORed in and LLP gets the first node's address. Exactly MultiBlockCount nodes are filled, each linking to the next node's address, with the node description below. |
| Gdma.WalkList | ameba/amebad/source/fwlib/ram_common/ameba_gdma_ram.c:131-153 | The loop fills node i for every i below the count with the node specification (control word, linked address, block size in CTL_HIGH). |
| Gdma.ClearsLlpLast | ameba/amebad/source/fwlib/ram_common/ameba_gdma_ram.c:135-138 | The LLP enable bits are cleared only on the last node, and only when bit 0 of `round` is 0. |
| Gdma.BlockField | ameba/amebad/source/fwlib/ram_common/ameba_gdma_ram.c:140-141 | Each node's CTL_HIGH has its block-size field replaced and its other bits kept. |
| Gdma.BlockTwice | ameba/amebad/source/fwlib/ram_common/ameba_gdma_ram.c:140-141 | Replacing the block size twice leaves only the second value. |
| Gdma.SuspendBits | ameba/amebad/source/fwlib/ram_common/ameba_gdma_ram.c:200-212 | GDMA_Suspend sets CH_SUSP and keeps every other CFG_LOW bit. |
| Gdma.ResumeBits | ameba/amebad/source/fwlib/ram_common/ameba_gdma_ram.c:219-231 | GDMA_Resume clears CH_SUSP and keeps every other CFG_LOW bit. |
| Gdma.ResumeAfterSuspend | ameba/amebad/source/fwlib/ram_common/ameba_gdma_ram.c:211-230 | Suspending then resuming is the same as resuming alone. |
| Gdma.SuspendKeepsFifoBit | ameba/amebad/source/fwlib/ram_common/ameba_gdma_ram.c:189-191 | Suspend does not change the FIFO_EMPTY bit that GDMA_ChnlFIFOIsEmpty reports. |
| Gdma.ResumeKeepsFifoBit | ameba/amebad/source/fwlib/ram_common/ameba_gdma_ram.c:189-191 | Resume does not change the FIFO_EMPTY bit that GDMA_ChnlFIFOIsEmpty reports. |
| Gdma.AbortLoopValue | ameba/amebad/source/fwlib/ram_common/ameba_gdma_ram.c:254-259 | The u32 counter after `while (timeout--)` wraps to 2^32-1 when no check sees the channel inactive. When check j is the first to, it holds timeout - j. |
| Gdma.Abort | ameba/amebad/source/fwlib/ram_common/ameba_gdma_ram.c:239-268 | As written, GDMA_Abort returns TRUE (channel left suspended, then disabled) unless the 500th check is the first to see it inactive. In that case it resumes and returns FALSE. |
| Gdma.AbortIntended | ameba/amebad/source/fwlib/ram_common/ameba_gdma_ram.c:239-268 | With the intended wait, TRUE exactly when one of the 500 checks saw the channel stop; otherwise resumed and FALSE. |
| RomPatch.OtpLogicalMapRead | ameba/amebad/source/lib/chipinfo/ameba_rom_patch.c:747-760 | Fails iff the ROM read does not return 1. On success buf[i] = map[addr+i] for the first min(len, OTP_LMAP_LEN - addr) indices, and the rest of the buffer is the map as read. |
| RomPatch.CopyCount | ameba/amebad/source/lib/chipinfo/ameba_rom_patch.c:755 | The loop copies at most len bytes and never reads at or past OTP_LMAP_LEN. |
| RomPatch.FlashTxData | ameba/amebad/source/lib/chipinfo/ameba_rom_patch.c:866-948 | The call halts in io_assert_failed exactly when the data is longer than 256 bytes or crosses a 256-byte page. Otherwise the FIFO receives the command byte, the address bytes most significant first (3 or 4 by address phase), then exactly the data bytes in order. |
| RomPatch.TxDataPhase | ameba/amebad/source/lib/chipinfo/ameba_rom_patch.c:908-933 | Every data byte is pushed once, in order. Word pushes happen only at word-aligned addresses, and a byte push at an aligned address occurs only in the tail of fewer than 4 bytes. |
| RomPatch.BytePrefix | ameba/amebad/source/lib/chipinfo/ameba_rom_patch.c:911-920 | An unaligned start pushes single bytes up to the next word boundary (or the end of the data); an aligned start pushes none. |
| RomPatch.WordRun | ameba/amebad/source/lib/chipinfo/ameba_rom_patch.c:923-928 | Whole words are pushed at aligned positions until fewer than 4 bytes remain. |
| RomPatch.ByteTail | ameba/amebad/source/lib/chipinfo/ameba_rom_patch.c:930-933 | The last fewer-than-4 bytes are pushed one at a time. |
| RomPatch.WordRoundTrip | ameba/amebad/source/lib/chipinfo/ameba_rom_patch.c:925 | A word loaded little-endian from 4 bytes splits back into those bytes, so a word push sends the same bytes. |
| RomPatch.AddrBytesRoundTrip | ameba/amebad/source/lib/chipinfo/ameba_rom_patch.c:888-891 | The four address bytes recombine to the address. |
| RomPatch.CommandBytesOrder | ameba/amebad/source/lib/chipinfo/ameba_rom_patch.c:893-898 | The command is followed by address bytes 2, 1, 0 (3-byte phase) or 3, 2, 1, 0 (4-byte phase), and nothing for other phases. |
| RomPatch.ClockIdSplit | ameba/amebad/source/lib/chipinfo/ameba_rom_patch.c:1102-1103 | The clock id splits into a 2-bit register selector (bits 30-31) and a 30-bit mask that together rebuild it. |
| RomPatch.PeriphClockEnableChk | ameba/amebad/source/lib/chipinfo/ameba_rom_patch.c:1098-1104 | The call halts in io_assert_failed exactly when the selector in bits 30-31 is 0. |
| RomPatch.ClockEnableChkLowBits | ameba/amebad/source/lib/chipinfo/ameba_rom_patch.c:1118-1123 | For selector 1-3 the check is TRUE iff the selected register has one of the id's low 30 bits set. |
| RomPatch.ClockEnableChkNoBits | ameba/amebad/source/lib/chipinfo/ameba_rom_patch.c:1118-1123 | An id with no mask bits reads as disabled, or halts on the assert_param when it is 0. |
| DiagFormat.DigitValueOfChar | ameba/amebad/source/lib/chipinfo/ameba_rom_patch.c:23-26 | Each digit value 0..15 maps to a character that reads back as that value, '0'-'9' then 'A'/'a' by case. |
| DiagFormat.DigitsRoundTrip | ameba/amebad/source/lib/chipinfo/ameba_rom_patch.c:53-58 | The digit string, most significant first, reads back as the number in its radix. |
| DiagFormat.DigitsNoLeadingZero | ameba/amebad/source/lib/chipinfo/ameba_rom_patch.c:53-58 | The first digit is '0' iff the number is 0, which prints as the single digit "0". |
| DiagFormat.DecimalDigits | ameba/amebad/source/lib/chipinfo/ameba_rom_patch.c:23-26 | Decimal digits are '0'-'9' whatever the case flag. |
| DiagFormat.ToSigned | ameba/amebad/source/lib/chipinfo/ameba_rom_patch.c:13-16 | A `va_arg` of int or long long reads the argument modulo 2^32 or 2^64 as two's complement. |
| DiagFormat.ToUnsigned | ameba/amebad/source/lib/chipinfo/ameba_rom_patch.c:18-21 | An unsigned `va_arg` reads the argument modulo 2^32 or 2^64. |
| DiagFormat.ArgModulus | ameba/amebad/source/lib/chipinfo/ameba_rom_patch.c:13-21 | No 'l' reads 32 bits, "ll" reads 64, and a single 'l' reads the ABI's long. |
| DiagFormat.Pad | ameba/amebad/source/lib/chipinfo/ameba_rom_patch.c:90-99 | pad_char_control emits n copies of the pad character for positive n, nothing otherwise. |
| DiagFormat.PrintUnsignedShape | ameba/amebad/source/lib/chipinfo/ameba_rom_patch.c:45-88 | The return is max(sign + digits, padn) and equals the number of characters emitted. The output ends with the digits. |
| DiagFormat.PrintUnsignedSign | ameba/amebad/source/lib/chipinfo/ameba_rom_patch.c:60-80 | With '0' padding the '-' comes before the zeros; with space padding it follows the spaces, right before the digits. |
| DiagFormat.PadNumShape | ameba/amebad/source/lib/chipinfo/ameba_rom_patch.c:101-118 | Left alignment pads inside print_unsigned_num. With '-' the number is printed unpadded, and a non-space pad character then adds nothing. |
| DiagFormat.PadNumRight | ameba/amebad/source/lib/chipinfo/ameba_rom_patch.c:106-112 | With '-' the number comes first, followed by spaces up to the width only when padc is ' '. |
| DiagPrintf.Decide | ameba/amebad/source/lib/chipinfo/ameba_rom_patch.c:174-311 | '\0' is the Terminator case; as written the scan then steps past it. The switch returns -1 exactly for unknown characters and for %z when size_t is 8 bytes. Numeric widths start at a digit. |
| DiagPrintf.Conversion | ameba/amebad/source/lib/chipinfo/ameba_rom_patch.c:175-250 | After a conversion, `upper` is set iff it was already set or the conversion is %X or %p; it is never reset. |
| DiagPrintf.ReturnIsLength | ameba/amebad/source/lib/chipinfo/ameba_rom_patch.c:143-322 | A DiagVprintf call that returns gives either -1 or exactly the number of characters emitted. |
| DiagPrintf.LiteralCopy | ameba/amebad/source/lib/chipinfo/ameba_rom_patch.c:316-318 | A format without '%' is copied one-for-one and its length returned. |
| DiagPrintf.TextShape | ameba/amebad/source/lib/chipinfo/ameba_rom_patch.c:218-236 | %s pads to the width on the left, or on the right with '-'. |
| DiagPrintf.CharTextShape | ameba/amebad/source/lib/chipinfo/ameba_rom_patch.c:237-250 | %c pads to the width on the left, or on the right with '-'. |
| DiagPrintf.TrailingWidthReturnsCount | ameba/amebad/source/lib/chipinfo/ameba_rom_patch.c:291-299 | A format ending inside a width returns the count so far, not -1. |
| DiagPrintf.UpperIsSticky | ameba/amebad/source/lib/chipinfo/ameba_rom_patch.c:151 | After %X a later %x also prints upper-case: "%X%x" of 171, 171 gives "ABAB". |
| DiagPrintf.SizeTModifier | ameba/amebad/source/lib/chipinfo/ameba_rom_patch.c:251-256 | %zu returns -1 where size_t is 8 bytes and prints normally where it is 4. |
| DiagPrintf.CorrectedAgrees | ameba/amebad/source/lib/chipinfo/ameba_rom_patch.c:143-322 | The corrected reading never reads past the terminator and agrees with the code wherever the code stays inside the string. |
| DiagNano.PrintDecimalShape | ameba/amebad/source/lib/chipinfo/ameba_rom_patch.c:324-358 | print_decimal_num pads to padn before a '-', then prints the lower-case digits. Its return counts pads and digits but not the '-'. |
| DiagNano.NanoDecide | ameba/amebad/source/lib/chipinfo/ameba_rom_patch.c:386-482 | The nano switch returns -1 exactly for characters other than i d u x s c C % 0-9 and ' '. |
| DiagNano.NanoReturnIsLength | ameba/amebad/source/lib/chipinfo/ameba_rom_patch.c:360-492 | DiagVprintfNano never reads past the terminator. Its return is -1 or at most the characters emitted; the corrected version returns exactly that count. |
| DiagNano.NanoTrailingPercent | ameba/amebad/source/lib/chipinfo/ameba_rom_patch.c:479-481 | A format ending right after '%' returns -1 in the nano dialect. |
| SnFormat.SnScan | ameba/amebad/source/lib/chipinfo/ameba_rom_patch.c:543-695 | The loop returns the number of characters written, and with a bound never writes more than the bound. |
| SnFormat.SnTruncates | ameba/amebad/source/lib/chipinfo/ameba_rom_patch.c:549-550 | A bounded run is the unbounded one cut at the bound: the same when shorter, otherwise its first `size` characters with return `size`. |
| SnFormat.SnPrintfTruncates | ameba/amebad/source/lib/chipinfo/ameba_rom_patch.c:536-542 | With size > 0, DiagSnPrintf writes the unbounded output cut to size characters and returns how many it wrote; size 0 is unbounded. |
| SnFormat.SnExtends | ameba/amebad/source/lib/chipinfo/ameba_rom_patch.c:543-695 | The formatter only appends to what was written before. |
| SnFormat.SnLiteralCopy | ameba/amebad/source/lib/chipinfo/ameba_rom_patch.c:546-553 | Literal characters are copied one-for-one. |
| SnFormat.SnString | ameba/amebad/source/lib/chipinfo/ameba_rom_patch.c:555-562 | %s copies the whole string argument. |
| SnFormat.SnStep | ameba/amebad/source/lib/chipinfo/ameba_rom_patch.c:543-695 | A loop turn stops exactly at a NUL of the format, and is past the end only one position after the terminator. A turn that emits moves forward and uses at most the remaining arguments. |
| SnFormat.SnShiftDigits | ameba/amebad/source/lib/chipinfo/ameba_rom_patch.c:581-599 | For non-negative values the precomputed shift covers exactly the hex digits of the value; negative values get shift 0. |
| SnFormat.HexCountDigits | ameba/amebad/source/lib/chipinfo/ameba_rom_patch.c:632-635 | hex_count is the number of hex digits of a non-zero value, and 0 for 0. |
| SnFormat.SnHexPositive | ameba/amebad/source/lib/chipinfo/ameba_rom_patch.c:619-642 | For positive values the code's hex output equals the corrected one. |
| SnFormat.SnHexWiderThanTmp | ameba/amebad/source/lib/chipinfo/ameba_rom_patch.c:565-642 | The pad loop writes `padn - hex_count` characters with no bound of its own, so "%x" of a positive value with width 20 or more builds an item longer than the 20-byte `tmp`. |
| SnFormat.TruncDigitsDecimal | ameba/amebad/source/lib/chipinfo/ameba_rom_patch.c:654-679 | Digits produced least significant first and reversed give the decimal digits. |
| SnFormat.SnWidthValue | ameba/amebad/source/lib/chipinfo/ameba_rom_patch.c:606-613 | The width loop accumulates the decimal value of the digit run. |
| SnFormat.Put | ameba/amebad/source/lib/chipinfo/ameba_rom_patch.c:687-693 | Characters are copied until the buffer end is reached, where the call stops with the output cut at the bound. |
| ChipInfo.SocNameSpan | ameba/amebad/source/lib/chipinfo/ameba_chipinfo_lib.c:57-75 | The name is the text between the first "soc/" of the path and the first "/lib" after it. |
| ChipInfo.SocNameMissing | ameba/amebad/source/lib/chipinfo/ameba_chipinfo_lib.c:64-74 | There is no name iff "soc/" is missing or no "/lib" follows it. |
| ChipInfo.Find | ameba/amebad/source/lib/chipinfo/ameba_chipinfo_lib.c:64-71 | strstr returns the first occurrence at or after the start, and nothing when there is none. |
| ChipInfo.CopyName | ameba/amebad/source/lib/chipinfo/ameba_chipinfo_lib.c:77-79 | The copy is the name cut to the limit, with the NUL right after it. |
| ChipInfo.PrintBuf | ameba/amebad/source/lib/chipinfo/ameba_chipinfo_lib.c:12-18 | CHIP_INFO_PRINT_BUF appends only while used < buflen, and never changes what was already written. |
| ChipInfo.PrintBufFits | ameba/amebad/source/lib/chipinfo/ameba_chipinfo_lib.c:12-18 | An append takes as much of the item as fits in the rest of the buffer. |
| ChipInfo.GetSocNameToBuf | ameba/amebad/source/lib/chipinfo/ameba_chipinfo_lib.c:64-74 | A path without the markers leaves the buffer untouched. |
| ChipInfo.GetSocNameText | ameba/amebad/source/lib/chipinfo/ameba_chipinfo_lib.c:55-98 | The buffer receives "<name>: " and "\r\n", cut to buflen characters. |
| ChipInfo.PsramExists | ameba/amebad/source/lib/chipinfo/ameba_chipinfo_lib.c:50-53 | Always TRUE. |
| Usb.GetCalData | ameba/amebad/source/fwlib/ram_common/ameba_usb.c:134-156 | Every table ends with the sentinel {0xFF, 0x00, 0x00} and has no earlier page-0xFF entry. Mode 0 gets a 9-entry device table, any other mode a host table. An IC version of at least IC_VERSION_4 gets an RL6886 table, recognisable by its third value 0x9D or 0x7D. |
| Usb.GetCalDataDistinct | ameba/amebad/source/fwlib/ram_common/ameba_usb.c:141-153 | Two calls give the same table iff they agree on device (mode 0) versus host and on RL6886 (IC version >= IC_VERSION_4) versus RL6548C. |
| Usb.WaitCkrdy | ameba/amebad/source/fwlib/ram_common/ameba_usb.c:234-241 | The wait succeeds iff one of polls 1..1000 sees UPLL_CKRDY, stopping at the first; otherwise it gives up with the count at 1001. |
| Usb.Init | ameba/amebad/source/fwlib/ram_common/ameba_usb.c:163-249 | HAL_OK iff a poll within 1000 sees CKRDY, HAL_TIMEOUT otherwise. The state is then as below. |
| Usb.AfterInit | ameba/amebad/source/fwlib/ram_common/ameba_usb.c:170-246 | The three pad configurations are saved and the flag set. USBPHY_EN is set; USBOTG_EN is set when CKRDY was seen and kept if already set. Other add-on bits are kept. |
| Usb.Deinit | ameba/amebad/source/fwlib/ram_common/ameba_usb.c:256-322 | USBOTG_EN and USBPHY_EN are cleared and the other add-on bits kept. The saved pads are restored only if the flag is set, which is then cleared; HAL_OK is returned. |
| Usb.InitDeinitRestores | ameba/amebad/source/fwlib/ram_common/ameba_usb.c:170-319 | Init then deinit gives the pads back as they were, whether or not the clock came up. |
| Usb.DeinitTwice | ameba/amebad/source/fwlib/ram_common/ameba_usb.c:314-319 | A second deinit changes nothing. |
| Usb.RegisterIrqHandler | ameba/amebad/source/fwlib/ram_common/ameba_usb.c:350-355 | A NULL handler registers nothing; otherwise the handler is registered with its priority. |

## Left out

- Power and clock bring-up sequences are not modelled: the USB power sequence on REG_HS_OTG_CTRL, the PLL power-up steps and the PSRAM LDO steps. They are `DelayUs` waits and busy-waits on hardware bits. `DelayUs` itself is dropped.
- Cache maintenance (`DCache_*`) is treated as a no-op, and the TrustZone choice of the GDMA base address is not modelled.
- Ipc.InitialMailbox: the USR words are assumed to reset to zero. Only `Messages` has an initialiser in the source.
- Wdg.Cmd and Wdg.Enable: WDG_IrqClear reads VENDOR back, and that read is taken to return the word just written. A self-clearing ISR_CLEAR bit or other read-back difference is not modelled.
- Pll.ClkTune and Pll.TrigPulse: each re-read of CTRL1 is taken to return the word last written. Hardware that changes the register in between is not modelled.
- The real concurrency of the two cores is not modelled: each IPC send and get is one atomic step on the shared state, and interrupt delivery is a log entry.
- Register bit masks from headers outside this model are parameters, not constants. These are the GDMA `Layout`, `IS_GDMA_DIR`, the PLL field masks and selectors, the PSRAM `CalLayout`, `WDG_BIT_*`, IC_VERSION_4 and the RCC register offsets.
- The effects of `GDMA_Cmd`, `GDMA_ClearINT` and `GDMA_INTConfig` inside `GDMA_Init` and `GDMA_Abort` are not modelled; these functions are not part of this model.
- `GDMA_SetChnlPriority` only logs and is left out.
- Gdma.Abort: the channel disable on TRUE is not modelled.
- `GDMA_ChnlFIFOIsEmpty` is stated only through Gdma.SuspendKeepsFifoBit and Gdma.ResumeKeepsFifoBit; its register read is an input.
- Wdg.ScalarIsEarliestMinimum: the loop is modelled as a recursive search over the table of 12 candidates, not as a C loop.
- `WDG_ClearINT`, `WDG_Reset`, `WDG_StructMemValueSet` and `WDG_INTConfig` are compositions of modelled parts, or empty, and are not modelled separately.
- Pll.Set: the power-up branch records only that it is taken, not its register sequence.
- The PLL read-modify-writes are stated on placed field words (Pll.SetFieldBits, Pll.PlaceFits); `PLL_Div` has no contract of its own beyond those lemmas.
- `PLL2_Set` and `PLL3_Set` are not part of the named core and are left out.
- The `FLASH_TxData` FIFO hardware is not modelled: the FIFO-depth waits, chip select, `FLASH_WaitBusy` and the SPIC enable/disable. The FIFO is a byte sequence.
- The EFUSE read behind `OTP_LogicalMap_Read` is an input (its return value and the logical map). The other OTP/EFUSE wrappers are left out.
- `ChipInfo_BDNum` and `ChipInfo_MCM_Info` are not modelled: they read EFUSE and are outside the named core.
- The OTP dump under `AMD_BACK2MSATER_TODO` is compiled out and is not modelled.
- `RTK_LOGE`/`RTK_LOGW` output is not modelled, and neither is a path containing a NUL before the markers.
- ChipInfo.PrintBuf: `used += ret` is modelled as the length of the text written, which equals DiagSnPrintf's return when the buffer holds the text.
- DiagPrintf.Decide: a `%s` with a NULL string (where print_string returns -1 and the count goes down by one) is not modelled. String arguments are NUL-free sequences.
- SnFormat.SnHex: the item is an unbounded string, while DiagSnPrintf builds it in `char tmp[20]`. A `%x`/`%p` width of 20 or more writes past that array, and the model does not represent the overrun. SnFormat.SnHexWiderThanTmp states the item length that causes it.
- Writes past `num_buf[20]` and `num_buf_temp[10]` are not modelled, nor integer overflow of `count` and of the width accumulation. Digits and widths are unbounded integers.
- A conversion that finds no argument of its type gives `BadArg`: the C code has undefined behaviour there.
- `usb_chip_enable_interrupt`, `usb_chip_disable_interrupt` and `usb_chip_unregister_irq_handler` are single call-throughs to ROM and are left out.
- The pinmux get/set helpers of ameba_usb.c are inputs: the pad words are parameters.
- Psram.Drr: the DRR fields are stated for clock periods whose `clk*1000` product does not wrap to zero in u32; a zero product is a division by zero in the source.
- `PSRAM_CTRL_DPin_*`, `PSRAM_PHY_REG_Read/Write` and the sleep and wakeup modes are register plumbing and are left out.
- ChipInfo composes with DiagSnPrintf as written, since it states what the existing code puts in the buffer. SnFormat.SnCorrectedNulInside states the corrected call separately.

## Findings

| source | as written | input that shows it | evidently intended | confidence | as-written member | corrected member |
|---|---|---|---|---|---|---|
| ameba/amebad/source/fwlib/ram_common/ameba_gdma_ram.c:254-264 | `while (timeout--)` leaves the u32 counter at 0xFFFFFFFF when the loop runs out, and the `timeout == 0` test only catches a channel that stops on the very last check | a channel that never goes inactive: GDMA_Abort returns TRUE | FALSE exactly when none of the 500 checks saw the channel stop | high; not executed | Gdma.AbortNeverInactive | Gdma.AbortIntended |
| ameba/amebad/source/lib/chipinfo/ameba_chipinfo_lib.c:77-79 | `namelen = MIN(len, sizeof(socname))` and `socname[namelen] = '\0'` on `char socname[20]` | a name of 20 or more characters writes index 20 | limit the copy to 19 characters so the NUL stays in the array | high; not executed | ChipInfo.CopyNameOverflows | ChipInfo.CopyNameInside |
| ameba/amebad/source/lib/chipinfo/ameba_rom_patch.c:339-349 | DiagVprintfNano pads before printing '-', and does not count the '-' | "%05d" of -42 prints "000-42" and returns 5 | "-0042" returned as 5, like DiagVprintf | medium; not executed | DiagNano.NanoSignAsWritten | DiagNano.NanoSignCorrected |
| ameba/amebad/source/lib/chipinfo/ameba_rom_patch.c:306-307 | `case '\0'` breaks out of the switch, and the `fmt++` after it steps over the terminator | "abc%" reads past the end of the format | stop at the terminator and return the count | high; not executed | DiagPrintf.TrailingPercentOverruns | DiagPrintf.CorrectedAgrees |
| ameba/amebad/source/lib/chipinfo/ameba_rom_patch.c:632-642 | hex padding compares padn with hex_count, which is 0 for the value 0, while one digit is always printed | "%05x" of 0 gives 6 characters | width 5 means 5 characters | medium; not executed | SnFormat.SnHexZero | SnFormat.SnHexCorrectedValue |
| ameba/amebad/source/lib/chipinfo/ameba_rom_patch.c:581-642 | a negative value gets `shift = 0`, so only its last hex digit is printed | "%x" of -1 prints "f" | all 8 digits of the u32 value, "ffffffff" | high; not executed | SnFormat.SnHexNegative | SnFormat.SnHexCorrectedValue |
| ameba/amebad/source/lib/chipinfo/ameba_rom_patch.c:648-660 | `i = -i` on INT_MIN stays negative, and the digit loop then produces characters below '0' | "%d" of -2147483648 ends in '(' | "-2147483648" | high; not executed | SnFormat.SnDecimalIntMin | SnFormat.SnDecimalCorrectedValue |
| ameba/amebad/source/lib/chipinfo/ameba_rom_patch.c:549-550 | output stops when `s` reaches `buf + size`, then `*s = '\0'` writes buf[size] | "abc" into a 2-byte buffer writes "ab" and a NUL at buf[2] | stop at size - 1 so the NUL fits | high; not executed | SnFormat.SnNulPastEnd | SnFormat.SnCorrectedNulInside |
