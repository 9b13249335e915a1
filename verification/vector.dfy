/**
 * The priority handling of irq_register_check in ameba_vector.h and the
 * InterruptEn macro.  irq_register and irq_enable live in ROM; the model
 * returns the call each of them receives.
 */
module Vector {

  import opened Bits

  /** The core the header is compiled for: CONFIG_ARM_CORE_CM4 or the KM0 default. */
  datatype Build = Cm4 | Km0

  /** MAX_IRQ_PRIORITY_VALUE. */
  function MaxPriority(b: Build): nat {
    if b == Cm4 then 7 else 3
  }

  /** IRQ_PRIORITY_SHIFT. */
  function PriorityShift(b: Build): nat {
    if b == Cm4 then 1 else 2
  }

  /** The priority is clamped to MAX_IRQ_PRIORITY_VALUE before it is shifted. */
  function Clamp(b: Build, priority: nat): (p: nat)
    ensures p <= MaxPriority(b)
    ensures priority <= MaxPriority(b) ==> p == priority
    ensures priority > MaxPriority(b) ==> p == MaxPriority(b)
  {
    if priority > MaxPriority(b) then MaxPriority(b) else priority
  }

  /** The call irq_register_check makes: irq_register(IrqFun, IrqNum, Data, Priority). */
  datatype RegisterCall = RegisterCall(irqFun: nat, irqNum: int, data: nat, priority: nat)

  /** irq_register_check; its return value is the result of exactly this irq_register call. */
  function RegisterCheck(b: Build, irqFun: nat, irqNum: int, data: nat, priority: nat): (c: RegisterCall)
    ensures c.irqFun == irqFun && c.irqNum == irqNum && c.data == data
  {
    RegisterCall(irqFun, irqNum, data, Clamp(b, priority) * Pow2(PriorityShift(b)))
  }

  /**
   * The forwarded priority is at most 14 on CM4 and 12 on KM0, a multiple of
   * 2^IRQ_PRIORITY_SHIFT, and an in-range priority is recovered by shifting back.
   */
  lemma ForwardedPriorityBounds(b: Build, priority: nat)
    ensures var f := RegisterCheck(b, 0, 0, 0, priority).priority;
      && f <= (if b == Cm4 then 14 else 12)
      && f % Pow2(PriorityShift(b)) == 0
      && (priority <= MaxPriority(b) ==> f / Pow2(PriorityShift(b)) == priority)
  {
    assert Pow2(1) == 2 && Pow2(2) == 4;
  }

  /** The forwarded priority never decreases when the requested one grows. */
  lemma ForwardedPriorityMonotone(b: Build, p: nat, q: nat)
    requires p <= q
    ensures RegisterCheck(b, 0, 0, 0, p).priority <= RegisterCheck(b, 0, 0, 0, q).priority
  {
    assert Pow2(1) == 2 && Pow2(2) == 4;
  }

  /** InterruptEn(a, b) expands to irq_enable(a): the priority argument is discarded. */
  function InterruptEn(irqNum: int, priority: nat): int {
    irqNum
  }

  /** Whatever priority is passed, InterruptEn enables the same interrupt. */
  lemma InterruptEnIgnoresPriority(irqNum: int, p: nat, q: nat)
    ensures InterruptEn(irqNum, p) == InterruptEn(irqNum, q) == irqNum
  {
  }
}
