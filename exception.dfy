/** Exception dispatch of the AArch64 port: the trap frame the assembly entry
    pushes, the classification of an exception by its syndrome register, and
    the four per-category handlers (which do nothing yet). */
module Exception {
  type U8 = bv8
  type U64 = bv64

  /** `ExceptionType`: the dispatch keys of the four handled categories. */
  const SYNC: U8 := 0
  const IRQ: U8 := 1
  const FIQ: U8 := 2
  const SERROR: U8 := 3

  /** The callee-saved registers the entry code saves (`GeneralRegisters`). */
  datatype GeneralRegisters = GeneralRegisters(
    x19: U64, x20: U64, x21: U64, x22: U64, x23: U64, x24: U64, x25: U64,
    x26: U64, x27: U64, x28: U64, fp: U64, sp: U64, pc: U64)

  /** `TrapFrame`: the saved registers and the three system registers that
      describe the exception. */
  datatype TrapFrame = TrapFrame(regs: GeneralRegisters, esrEl1: U64, elrEl1: U64, spsrEl1: U64)

  /** The category of a handled exception. */
  datatype ExceptionKind = Sync | Irq | Fiq | SError

  /** The `ExceptionType` constant of each category. */
  function KindCode(k: ExceptionKind): (c: U8)
    ensures c <= SERROR
  {
    match k
    case Sync => SYNC
    case Irq => IRQ
    case Fiq => FIQ
    case SError => SERROR
  }

  /** Distinct categories have distinct codes. */
  lemma KindCodeInjective(a: ExceptionKind, b: ExceptionKind)
    ensures KindCode(a) == KindCode(b) <==> a == b
  {
  }

  /** What one exception leads to: the handler of one category ran and left
      the frame as it was, or the exception was not recognised and execution
      stops (the `panic!`), with the syndrome it reports. */
  datatype Outcome = Handled(kind: ExceptionKind, frame: TrapFrame) | Fatal(esr: U64)

  /** The dispatch key `(esr_el1 >> 26) as u8`. The cast to `u8` keeps the
      low eight bits of the shifted value, so the key is bits 26..33 of the
      syndrome: the six-bit exception class and the two bits above it. */
  function ExceptionKey(esr: U64): (ec: U8)
    ensures (ec as U64) << 26 == esr & 0x3_FC00_0000
  {
    ((esr >> 26) & 0xFF) as U8
  }

  /** Two syndromes give the same key exactly when they agree on bits
      26..33; all other bits play no part in the dispatch. */
  lemma SameKeyIff(a: U64, b: U64)
    ensures ExceptionKey(a) == ExceptionKey(b) <==> a & 0x3_FC00_0000 == b & 0x3_FC00_0000
  {
    var ka, kb := ExceptionKey(a), ExceptionKey(b);
    WidenedKeyShift(ka, kb);
  }

  /** Moving a key back into place loses no bit, so distinct keys stay
      distinct. */
  lemma WidenedKeyShift(ka: U8, kb: U8)
    ensures (ka as U64) << 26 == (kb as U64) << 26 <==> ka == kb
  {
  }

  /** `handle_sync_exception`: a placeholder that leaves the frame as it is. */
  function HandleSyncException(frame: TrapFrame): (f: TrapFrame)
    ensures f == frame
  {
    frame
  }

  /** `handle_irq`: a placeholder that leaves the frame as it is. */
  function HandleIrq(frame: TrapFrame): (f: TrapFrame)
    ensures f == frame
  {
    frame
  }

  /** `handle_fiq`: a placeholder that leaves the frame as it is. */
  function HandleFiq(frame: TrapFrame): (f: TrapFrame)
    ensures f == frame
  {
    frame
  }

  /** `handle_serror`: a placeholder that leaves the frame as it is. */
  function HandleSError(frame: TrapFrame): (f: TrapFrame)
    ensures f == frame
  {
    frame
  }

  /** `exception_handler`: route the exception to the handler its key names;
      any key other than the four `ExceptionType` values is fatal. Exactly one
      of the two happens, and a handled exception keeps its frame. */
  function ExceptionHandler(frame: TrapFrame): (o: Outcome)
    ensures o.Handled? <==> ExceptionKey(frame.esrEl1) <= SERROR
    ensures o.Handled? ==> KindCode(o.kind) == ExceptionKey(frame.esrEl1) && o.frame == frame
    ensures o.Fatal? ==> o.esr == frame.esrEl1
  {
    var ec := ExceptionKey(frame.esrEl1);
    if ec == SYNC then Handled(Sync, HandleSyncException(frame))
    else if ec == IRQ then Handled(Irq, HandleIrq(frame))
    else if ec == FIQ then Handled(Fiq, HandleFiq(frame))
    else if ec == SERROR then Handled(SError, HandleSError(frame))
    else Fatal(frame.esrEl1)
  }

  /** The category a syndrome is dispatched to, for every category: an
      exception is handled as `k` exactly when its key is `k`'s code. */
  lemma DispatchByKey(frame: TrapFrame, k: ExceptionKind)
    ensures ExceptionHandler(frame) == Handled(k, frame) <==> ExceptionKey(frame.esrEl1) == KindCode(k)
  {
    if ExceptionHandler(frame).Handled? {
      KindCodeInjective(ExceptionHandler(frame).kind, k);
    }
  }

  /** Bits 32 and 33 of the syndrome are part of the key: a syndrome with
      either of them set is fatal, whatever its exception class (bits 26..31)
      reads, even when those are the code of a handled category. */
  lemma HighKeyBitsAreFatal(frame: TrapFrame)
    requires frame.esrEl1 & 0x3_0000_0000 != 0
    ensures ExceptionHandler(frame).Fatal?
  {
    HighKeyBitsAboveSError(frame.esrEl1);
  }

  lemma HighKeyBitsAboveSError(esr: U64)
    requires esr & 0x3_0000_0000 != 0
    ensures ExceptionKey(esr) > SERROR
  {
  }

  /** Only the syndrome decides the outcome: frames with the same syndrome
      are dispatched to the same category, or are both fatal. */
  lemma OutcomeDependsOnSyndromeOnly(f: TrapFrame, g: TrapFrame)
    requires f.esrEl1 & 0x3_FC00_0000 == g.esrEl1 & 0x3_FC00_0000
    ensures ExceptionHandler(f).Handled? <==> ExceptionHandler(g).Handled?
    ensures ExceptionHandler(f).Handled? ==> ExceptionHandler(f).kind == ExceptionHandler(g).kind
  {
    SameKeyIff(f.esrEl1, g.esrEl1);
  }
}
