/** The trap handlers that drive the virtual timer and the virtual PLIC (`trap_handler`,
    `guest_page_fault_handler` and `handle_irq` of src/guest/vmexit.rs; src/guest/sbi.rs;
    src/device_emu/plic.rs; the state of src/hypervisor.rs). */
module TrapHandlers {
  import opened Words
  import VT = VirtualTimer
  import VP = VirtualPlic

  // ---------------------------------------------------------------- inputs

  /** A decoded instruction: a word load, a word store, or something else. */
  datatype Inst = Lw(rd: nat) | Sw(rs2: nat) | OtherInst

  datatype VmmError = TranslationError | DeviceNotFound | PseudoInst | DecodeInstError | UnexpectedInst | Panic

  datatype VmmResult = Ok | Err(error: VmmError)

  type U32 = n: nat | n < 0x1_0000_0000

  datatype SbiRet = SbiRet(error: Word, value: Word)

  /** Why the guest was left, with what the handler reads from CSRs, firmware and guest memory. */
  datatype Cause =
    | SupervisorTimer
    | SupervisorExternal(claim: U32)
    | VirtualSupervisorEcall(firmware: SbiRet)
    | GuestPageFault(addr: Word, htinst: Word, fetched: Option<Word>, length: nat, inst: Option<Inst>)
    | Fatal
    | Forwarded(vstvec: Word)

  const SBI_SET_TIMER: Word := 0
  const SBI_CONSOLE_PUTCHAR: Word := 1
  const SBI_CONSOLE_GETCHAR: Word := 2
  const SBI_EXTID_BASE: Word := 0x10
  const SBI_EXTID_TIME: Word := 0x54494D45
  const SBI_ERR_NOT_SUPPORTED: Word := 0xffff_ffff_ffff_fffe

  const A0 := 10
  const A1 := 11
  const A6 := 16
  const A7 := 17

  class TrapContext {
    var x: seq<Word>
    var sepc: nat

    ghost predicate Valid()
      reads this
    {
      |x| == 32
    }
  }

  // ---------------------------------------------------------------- the hardware PLIC, for the guest's context

  class PlicDevice {
    var pending: set<U32>
    var claimed: set<U32>
    ghost var claims: nat
    ghost var completions: nat

    /** What a read of the claim register can return: a pending source, or zero when there is none. */
    predicate Offers(irq: U32)
      reads this
    {
      if irq == 0 then pending == {} else irq in pending
    }

    /** A read of the claim register; the choice among the pending sources is the hardware's. */
    method ReadClaim(choice: U32) returns (irq: U32)
      requires Offers(choice)
      modifies this
      ensures irq == choice && completions == old(completions)
      ensures irq == 0 ==> pending == old(pending) && claimed == old(claimed) && claims == old(claims)
      ensures irq != 0 ==> pending == old(pending) - {irq} && claimed == old(claimed) + {irq} && claims == old(claims) + 1
    {
      irq := choice;
      if irq != 0 {
        pending, claimed, claims := pending - {irq}, claimed + {irq}, claims + 1;
      }
    }

    /** A write of the completion register. */
    method WriteComplete(value: U32)
      modifies this
      ensures pending == old(pending) && claims == old(claims) && claimed == old(claimed) - {value}
      ensures completions == old(completions) + if value in old(claimed) then 1 else 0
    {
      if value in claimed { completions := completions + 1; }
      claimed := claimed - {value};
    }
  }

  // ---------------------------------------------------------------- the hypervisor

  class HostVmm {
    const guestId: nat
    const baseAddr: Word
    const dev: PlicDevice
    var claimComplete: seq<U32>
    var vseip: bool
    var vstip: bool
    var stie: bool
    var deadline: nat
    var irqPending: bool
    var timerIrq: nat
    var externalIrq: nat
    var guestPageFaults: nat
    ghost var sets: nat

    ghost predicate Valid()
      reads this
    {
      && |claimComplete| == VP.MAX_CONTEXTS && VP.ContextOf(guestId) < VP.MAX_CONTEXTS
      && VP.ClaimAddress(baseAddr, VP.ContextOf(guestId)) + 4 <= 0x1_0000_0000_0000_0000
    }

    /** The virtual timer, at host time `now`. */
    ghost function Timer(now: nat): VT.Timer
      reads this
    {
      VT.Timer(now, deadline, vstip, stie, timerIrq, sets)
    }

    /** The virtual PLIC, as the guest's own context sees it. */
    ghost function Plic(): VP.Vplic
      reads this, dev
      requires Valid()
    {
      VP.Vplic(claimComplete[VP.ContextOf(guestId)], vseip, dev.pending, dev.claimed, dev.claims, dev.completions)
    }

    /** `init_vmm` for one guest. */
    constructor (guestId: nat, baseAddr: Word, dev: PlicDevice, deadline: nat)
      requires VP.ContextOf(guestId) < VP.MAX_CONTEXTS
      requires VP.ClaimAddress(baseAddr, VP.ContextOf(guestId)) + 4 <= 0x1_0000_0000_0000_0000
      ensures Valid() && this.guestId == guestId && this.baseAddr == baseAddr && this.dev == dev
      ensures forall now :: VT.Initial(Timer(now))
      ensures |claimComplete| == 32 && (forall c :: 0 <= c < 32 ==> claimComplete[c] == 0)
      ensures !vseip && !vstip && stie && !irqPending && timerIrq == 0 && externalIrq == 0 && guestPageFaults == 0
    {
      this.guestId, this.baseAddr, this.dev := guestId, baseAddr, dev;
      claimComplete := seq(VP.MAX_CONTEXTS, _ => 0);
      vseip, vstip, stie, this.deadline := false, false, true, deadline;
      irqPending, timerIrq, externalIrq, guestPageFaults, sets := false, 0, 0, 0, 0;
    }

    /** The set-timer part of both SBI calls. */
    method SetTimer(stime: Word)
      requires Valid()
      modifies this
      ensures Valid() && Plic() == old(Plic())
      ensures deadline == stime && !vstip && stie && timerIrq == old(timerIrq)
      ensures forall now :: Timer(now) == VT.OnSetTimer(old(Timer(now)), stime)
      ensures guestPageFaults == old(guestPageFaults) && externalIrq == old(externalIrq)
      ensures claimComplete == old(claimComplete) && irqPending == old(irqPending)
    {
      deadline := stime;
      vstip := false;
      stie := true;
      sets := sets + 1;
    }

    /** `sbi_vs_handler`: exactly the legacy call and function 0 of the TIME extension set the timer, to a0,
        clear the guest's pending tick and enable the host's; every served call answers in a0 and a1 and
        touches no other register. */
    method SbiVsHandler(ctx: TrapContext, firmware: SbiRet) returns (r: VmmResult)
      requires Valid() && ctx.Valid()
      modifies this, ctx
      ensures Valid() && ctx.Valid() && ctx.sepc == old(ctx.sepc) && Plic() == old(Plic())
      ensures externalIrq == old(externalIrq) && guestPageFaults == old(guestPageFaults)
      ensures claimComplete == old(claimComplete) && irqPending == old(irqPending)
      ensures r == if Served(old(ctx.x[A7]), old(ctx.x[A6])) then Ok else Err(Panic)
      ensures var a7, a6 := old(ctx.x[17]), old(ctx.x[16]);
              && (r == Ok <==> a7 in {0, 1, 2, 0x54494D45} || (a7 == 0x10 && a6 <= 6))
              && (if a7 == 0 || (a7 == 0x54494D45 && a6 == 0) then
                    r == Ok && deadline == old(ctx.x[10]) && !vstip && stie
                  else
                    deadline == old(deadline) && vstip == old(vstip) && stie == old(stie))
              && (a7 == 0 || a7 == 1 || (a7 == 0x54494D45 && a6 == 0) ==> ctx.x == old(ctx.x)[10 := 0][11 := 0])
              && (a7 == 0x54494D45 && a6 != 0 ==> ctx.x == old(ctx.x)[10 := 0xffff_ffff_ffff_fffe][11 := 0])
              && (a7 == 2 ==> ctx.x == old(ctx.x)[10 := 0][11 := firmware.value])
              && (a7 == 0x10 && (a6 == 0 || a6 == 3) ==> ctx.x == old(ctx.x)[10 := firmware.error][11 := firmware.value])
              && (a7 == 0x10 && a6 in {1, 2, 4, 5, 6} ==> ctx.x == old(ctx.x)[10 := 0][11 := firmware.value])
      ensures var a7, a6 := old(ctx.x[A7]), old(ctx.x[A6]);
              forall now :: Timer(now) ==
                if SetsTimer(a7, a6) then VT.OnSetTimer(old(Timer(now)), old(ctx.x[A0])) else old(Timer(now))
      ensures r == Ok ==> SbiRet(ctx.x[A0], ctx.x[A1]) == SbiAnswer(old(ctx.x[A7]), old(ctx.x[A6]), firmware)
      ensures r != Ok ==> ctx.x == old(ctx.x)
    {
      var ext, fid, arg := ctx.x[A7], ctx.x[A6], ctx.x[A0];
      var ret := SbiRet(0, 0);
      if ext == SBI_EXTID_BASE {
        if fid > 6 {
          return Err(Panic);
        }
        ret := if fid == 0 || fid == 3 then firmware else SbiRet(0, firmware.value);
      } else if ext == SBI_EXTID_TIME {
        if fid != 0 {
          ret := SbiRet(SBI_ERR_NOT_SUPPORTED, 0);
        } else {
          SetTimer(arg);
        }
      } else if ext == SBI_CONSOLE_PUTCHAR {
      } else if ext == SBI_CONSOLE_GETCHAR {
        ret := SbiRet(0, firmware.value);
      } else if ext == SBI_SET_TIMER {
        SetTimer(arg);
      } else {
        return Err(Panic);
      }
      ctx.x := ctx.x[A0 := ret.error];
      ctx.x := ctx.x[A1 := ret.value];
      r := Ok;
    }

    /** `handle_irq`: claim from the hardware into the context's slot and interrupt the guest. */
    method HandleIrq(claim: U32)
      requires Valid() && dev.Offers(claim)
      modifies this, dev
      ensures Valid() && VP.Step(old(Plic()), VP.ExternalTrap(claim)) == Some(Plic())
      ensures forall now :: Timer(now) == old(Timer(now))
      ensures claimComplete == old(claimComplete)[2 * guestId + 1 := claim]
      ensures vseip && irqPending && guestPageFaults == old(guestPageFaults) && externalIrq == old(externalIrq)
    {
      var context := 2 * guestId + 1;
      var irq := dev.ReadClaim(claim);
      claimComplete := claimComplete[context := irq];
      vseip := true;
      irqPending := true;
    }

    /** `handle_plic_access`: every access is, for the virtual PLIC, a read of the claim register, a
        completion on the guest's own context or on another one, or nothing. */
    method HandlePlicAccess(ctx: TrapContext, pa: Word, inst: Inst, enabled: bool) returns (r: VmmResult, ghost e: VP.PlicEvent)
      requires Valid() && ctx.Valid()
      requires (inst.Lw? ==> inst.rd < 32) && (inst.Sw? ==> inst.rs2 < 32)
      modifies this, ctx, dev
      ensures Valid() && ctx.Valid() && ctx.sepc == old(ctx.sepc)
      ensures forall now :: Timer(now) == old(Timer(now))
      ensures externalIrq == old(externalIrq) && guestPageFaults == old(guestPageFaults)
      ensures irqPending == old(irqPending)
      ensures VP.Step(old(Plic()), e) == Some(Plic()) && r == AccessResult(baseAddr, pa, inst)
      ensures e == AccessEvent(baseAddr, VP.ContextOf(guestId), pa, inst, old(ctx.x), enabled)
      ensures ctx.x == LoadedRegisters(baseAddr, pa, inst, old(ctx.x), old(claimComplete))
      ensures claimComplete == CompletedSlots(baseAddr, pa, inst, old(claimComplete))
    {
      e := AccessEvent(baseAddr, VP.ContextOf(guestId), pa, inst, ctx.x, enabled);
      var access := VP.DecodeAccess(baseAddr, pa);
      if access.None? {
        return Err(Panic), e;
      }
      var (hart, index) := access.value;
      if index == 0 {
        r := if inst.Sw? then Ok else Err(UnexpectedInst);
      } else if index == 1 {
        match inst {
          case Lw(rd) =>
            ctx.x := ctx.x[rd := claimComplete[hart]];
            r := Ok;
          case Sw(rs2) =>
            var value := ctx.x[rs2] % 0x1_0000_0000;
            if hart == VP.ContextOf(guestId) {
              dev.WriteComplete(value);
            } else if enabled {
              dev.WriteComplete(value);
            }
            claimComplete := claimComplete[hart := 0];
            vseip := false;
            r := Ok;
          case OtherInst =>
            r := Err(UnexpectedInst);
        }
      } else {
        r := Ok;
      }
    }

    /** `guest_page_fault_handler`: the emulated access, after which the guest resumes behind it. */
    method GuestPageFaultHandler(ctx: TrapContext, cause: Cause, enabled: bool) returns (r: VmmResult, ghost e: VP.PlicEvent)
      requires Valid() && ctx.Valid() && cause.GuestPageFault? && Operands(cause)
      modifies this, ctx, dev
      ensures Valid() && ctx.Valid()
      ensures forall now :: Timer(now) == old(Timer(now))
      ensures externalIrq == old(externalIrq) && guestPageFaults == old(guestPageFaults)
      ensures irqPending == old(irqPending)
      ensures VP.Step(old(Plic()), e) == Some(Plic())
      ensures r == FaultResult(baseAddr, cause)
      ensures ctx.sepc == old(ctx.sepc) + if r == Ok then cause.length else 0
      ensures r == Ok ==>
                && e == AccessEvent(baseAddr, VP.ContextOf(guestId), cause.addr, cause.inst.value, old(ctx.x), enabled)
                && ctx.x == LoadedRegisters(baseAddr, cause.addr, cause.inst.value, old(ctx.x), old(claimComplete))
                && claimComplete == CompletedSlots(baseAddr, cause.addr, cause.inst.value, old(claimComplete))
      ensures r != Ok ==> ctx.x == old(ctx.x) && claimComplete == old(claimComplete) && e == VP.Idle
      ensures cause.addr < 0x0c00_0000 || cause.addr >= 0x1000_0000 <==> r == Err(DeviceNotFound)
      ensures 0x0c00_0000 <= cause.addr < 0x1000_0000 ==>
                && (cause.htinst == 0 && cause.fetched.None? <==> r == Err(TranslationError))
                && (cause.htinst == 0x3020 || cause.htinst == 0x3000 <==> r == Err(PseudoInst))
    {
      e := VP.Idle;
      if !(0x0c00_0000 <= cause.addr < 0x1000_0000) {
        return Err(DeviceNotFound), e;
      }
      if cause.htinst == 0 {
        if cause.fetched.None? {
          return Err(TranslationError), e;
        }
      } else if cause.htinst == 0x3020 || cause.htinst == 0x3000 {
        return Err(PseudoInst), e;
      }
      if cause.inst.None? {
        return Err(DecodeInstError), e;
      }
      r, e := HandlePlicAccess(ctx, cause.addr, cause.inst.value, enabled);
      if r == Ok {
        ctx.sepc := ctx.sepc + cause.length;
      }
    }

    /** `trap_handler`: one trap is one step of the virtual timer and one of the virtual PLIC. */
    method HandleTrap(ctx: TrapContext, cause: Cause, enabled: bool, ghost now: nat)
      returns (r: VmmResult, ghost te: VT.TimerEvent, ghost pe: VP.PlicEvent)
      requires Valid() && ctx.Valid() && Operands(cause)
      requires cause.SupervisorTimer? ==> stie && now >= deadline
      requires cause.SupervisorExternal? ==> dev.Offers(cause.claim)
      modifies this, ctx, dev
      ensures Valid() && ctx.Valid()
      ensures VT.Step(old(Timer(now)), te) == Some(Timer(now))
      ensures VP.Step(old(Plic()), pe) == Some(Plic())
      ensures te == TimerEventOf(cause, old(ctx.x))
      ensures pe == PlicEventOf(baseAddr, VP.ContextOf(guestId), cause, old(ctx.x), enabled)
      ensures r == TrapResult(baseAddr, cause, old(ctx.x))
      ensures cause.GuestPageFault? && r == Ok ==>
                ctx.x == LoadedRegisters(baseAddr, cause.addr, cause.inst.value, old(ctx.x), old(claimComplete))
      ensures cause.VirtualSupervisorEcall? && r == Ok ==>
                SbiRet(ctx.x[A0], ctx.x[A1]) == SbiAnswer(old(ctx.x[A7]), old(ctx.x[A6]), cause.firmware)
      ensures ctx.sepc == Resumption(baseAddr, cause, old(ctx.sepc))
      ensures !cause.VirtualSupervisorEcall? && !cause.GuestPageFault? ==> ctx.x == old(ctx.x)
      ensures irqPending == (old(irqPending) || cause.SupervisorExternal?)
      ensures externalIrq == old(externalIrq) + if cause.SupervisorExternal? then 1 else 0
      ensures guestPageFaults == old(guestPageFaults) + if cause.GuestPageFault? then 1 else 0
      ensures timerIrq == old(timerIrq) + if cause.SupervisorTimer? then 1 else 0
      ensures if cause.SupervisorTimer? then
                r == Ok && vstip && !stie && deadline == old(deadline)
              else if cause.VirtualSupervisorEcall? &&
                      (old(ctx.x[17]) == 0 || (old(ctx.x[17]) == 0x54494D45 && old(ctx.x[16]) == 0)) then
                r == Ok && !vstip && stie && deadline == old(ctx.x[10])
              else
                vstip == old(vstip) && stie == old(stie) && deadline == old(deadline)
      ensures cause.SupervisorExternal? ==> r == Ok && vseip && claimComplete == old(claimComplete)[2 * guestId + 1 := cause.claim]
      ensures cause.Fatal? ==> r == Err(Panic)
      ensures if cause.VirtualSupervisorEcall? then ctx.sepc == old(ctx.sepc) + 4
              else if cause.GuestPageFault? && r == Ok then ctx.sepc == old(ctx.sepc) + cause.length
              else if cause.Forwarded? then r == Ok && ctx.sepc == cause.vstvec
              else ctx.sepc == old(ctx.sepc)
    {
      te, pe, r := VT.Elapse(0), VP.Idle, Ok;
      match cause {
        case SupervisorTimer =>
          vstip := true;
          stie := false;
          timerIrq := timerIrq + 1;
          te := VT.TimerTrap;
        case SupervisorExternal(claim) =>
          HandleIrq(claim);
          externalIrq := externalIrq + 1;
          pe := VP.ExternalTrap(claim);
        case VirtualSupervisorEcall(firmware) =>
          if SetsTimer(ctx.x[A7], ctx.x[A6]) { te := VT.SetTimer(ctx.x[A0]); }
          r := SbiVsHandler(ctx, firmware);
          ctx.sepc := ctx.sepc + 4;
        case GuestPageFault(_, _, _, _, _) =>
          r, pe := GuestPageFaultHandler(ctx, cause, enabled);
          guestPageFaults := guestPageFaults + 1;
        case Fatal =>
          r := Err(Panic);
        case Forwarded(vstvec) =>
          ctx.sepc := vstvec;
      }
    }
  }

  /** Decoded registers are register numbers. */
  predicate Operands(cause: Cause) {
    cause.GuestPageFault? && cause.inst.Some? ==>
      (cause.inst.value.Lw? ==> cause.inst.value.rd < 32) && (cause.inst.value.Sw? ==> cause.inst.value.rs2 < 32)
  }

  /** How a guest page fault ends: outside the PLIC window it is refused, as are a fetch that does not
      translate, a fault of the first-stage walk and an instruction that does not decode. */
  function FaultResult(base: Word, cause: Cause): VmmResult
    requires cause.GuestPageFault?
  {
    if !(0x0c00_0000 <= cause.addr < 0x1000_0000) then Err(DeviceNotFound)
    else if cause.htinst == 0 && cause.fetched.None? then Err(TranslationError)
    else if cause.htinst == 0x3020 || cause.htinst == 0x3000 then Err(PseudoInst)
    else if cause.inst.None? then Err(DecodeInstError)
    else AccessResult(base, cause.addr, cause.inst.value)
  }

  /** Which of the timer's events a trap is. */
  function TimerEventOf(cause: Cause, x: seq<Word>): VT.TimerEvent
    requires |x| == 32
  {
    match cause
    case SupervisorTimer => VT.TimerTrap
    case VirtualSupervisorEcall(_) => if SetsTimer(x[A7], x[A6]) then VT.SetTimer(x[A0]) else VT.Elapse(0)
    case _ => VT.Elapse(0)
  }

  /** Which of the PLIC's events a trap is. */
  function PlicEventOf(base: Word, own: nat, cause: Cause, x: seq<Word>, enabled: bool): VP.PlicEvent
    requires |x| == 32 && Operands(cause)
  {
    match cause
    case SupervisorExternal(claim) => VP.ExternalTrap(claim)
    case GuestPageFault(addr, _, _, _, inst) =>
      if FaultResult(base, cause) == Ok then AccessEvent(base, own, addr, inst.value, x, enabled) else VP.Idle
    case _ => VP.Idle
  }

  /** How a trap ends: anything but Ok ends in the handler's panic. */
  function TrapResult(base: Word, cause: Cause, x: seq<Word>): VmmResult
    requires |x| == 32
  {
    match cause
    case VirtualSupervisorEcall(_) => if Served(x[A7], x[A6]) then Ok else Err(Panic)
    case GuestPageFault(_, _, _, _, _) => FaultResult(base, cause)
    case Fatal => Err(Panic)
    case _ => Ok
  }

  /** Where the guest goes on: behind a served call or an emulated access, in its own handler for a
      forwarded exception, and where it was after an interrupt. */
  function Resumption(base: Word, cause: Cause, sepc: nat): nat {
    match cause
    case VirtualSupervisorEcall(_) => sepc + 4
    case GuestPageFault(_, _, _, length, _) => if FaultResult(base, cause) == Ok then sepc + length else sepc
    case Forwarded(vstvec) => vstvec
    case _ => sepc
  }

  // ---------------------------------------------------------------- whole runs of the handlers

  /** What happens to the hart: time passes, a device raises its source, or the guest traps, with the
      registers it then has. */
  datatype Happening = Wait(delta: nat) | DeviceRaises(irq: U32) | Trap(cause: Cause, x: seq<Word>, sepc: nat, enabled: bool)

  predicate Decoded(h: Happening) {
    h.Trap? ==> |h.x| == 32 && Operands(h.cause)
  }

  ghost predicate AllDecoded(hs: seq<Happening>) {
    forall i :: 0 <= i < |hs| ==> Decoded(hs[i])
  }

  function TimerEventAt(h: Happening): VT.TimerEvent
    requires Decoded(h)
  {
    match h
    case Wait(delta) => VT.Elapse(delta)
    case DeviceRaises(_) => VT.Elapse(0)
    case Trap(cause, x, _, _) => TimerEventOf(cause, x)
  }

  function PlicEventAt(base: Word, own: nat, h: Happening): VP.PlicEvent
    requires Decoded(h)
  {
    match h
    case Wait(_) => VP.Idle
    case DeviceRaises(irq) => VP.Raise(irq)
    case Trap(cause, x, _, enabled) => PlicEventOf(base, own, cause, x, enabled)
  }

  function ResultAt(base: Word, h: Happening): VmmResult
    requires Decoded(h)
  {
    if h.Trap? then TrapResult(base, h.cause, h.x) else Ok
  }

  ghost function TimerEvents(hs: seq<Happening>): (es: seq<VT.TimerEvent>)
    requires AllDecoded(hs)
    ensures |es| == |hs| && forall i :: 0 <= i < |hs| ==> es[i] == TimerEventAt(hs[i])
  {
    seq(|hs|, i requires 0 <= i < |hs| && AllDecoded(hs) => TimerEventAt(hs[i]))
  }

  ghost function PlicEvents(base: Word, own: nat, hs: seq<Happening>): (es: seq<VP.PlicEvent>)
    requires AllDecoded(hs)
    ensures |es| == |hs| && forall i :: 0 <= i < |hs| ==> es[i] == PlicEventAt(base, own, hs[i])
  {
    seq(|hs|, i requires 0 <= i < |hs| && AllDecoded(hs) => PlicEventAt(base, own, hs[i]))
  }

  /** What hardware can bring about: the timer traps only when it is enabled and due, the claim register
      returns a pending source or nothing, and a device raises no source that is being served. */
  ghost predicate Possible(t: VT.Timer, base: Word, own: nat, hs: seq<Happening>)
    requires AllDecoded(hs)
  {
    VT.Run(t, TimerEvents(hs)).Some? && VP.Run(VP.INITIAL, PlicEvents(base, own, hs)).Some?
  }

  /** Read off the happenings alone: each external trap brings a source while the guest owes no completion,
      and the next completion is for that source, on the guest's own context. */
  ghost predicate Orderly(base: Word, own: nat, hs: seq<Happening>)
    requires AllDecoded(hs)
  {
    VP.Owed(PlicEvents(base, own, hs)).Some?
  }

  ghost function ExternalTraps(hs: seq<Happening>): nat {
    if hs == [] then 0
    else ExternalTraps(hs[..|hs| - 1]) + if hs[|hs| - 1].Trap? && hs[|hs| - 1].cause.SupervisorExternal? then 1 else 0
  }

  /** The states of both machines after the first n happenings. */
  ghost predicate At(t: VT.Timer, base: Word, own: nat, hs: seq<Happening>, n: nat, u: VT.Timer, s: VP.Vplic)
    requires AllDecoded(hs) && n <= |hs|
  {
    && VT.Run(t, TimerEvents(hs)[..n]) == Some(u)
    && VP.Run(VP.INITIAL, PlicEvents(base, own, hs)[..n]) == Some(s)
  }

  /** The next happening is one that both machines can take, and takes them on. */
  lemma NextStep(t: VT.Timer, base: Word, own: nat, hs: seq<Happening>, n: nat, u: VT.Timer, s: VP.Vplic)
    requires AllDecoded(hs) && n < |hs| && Possible(t, base, own, hs) && At(t, base, own, hs, n, u, s)
    ensures VT.Step(u, TimerEventAt(hs[n])).Some? && VP.Step(s, PlicEventAt(base, own, hs[n])).Some?
    ensures At(t, base, own, hs, n + 1, VT.Step(u, TimerEventAt(hs[n])).value, VP.Step(s, PlicEventAt(base, own, hs[n])).value)
  {
    hide TimerEvents, PlicEvents, TimerEventAt, PlicEventAt;
    var te, pe := TimerEvents(hs), PlicEvents(base, own, hs);
    VT.PrefixRuns(t, te, n + 1);
    VP.PrefixRuns(pe, n + 1);
    assert te[..n + 1][..n] == te[..n] && pe[..n + 1][..n] == pe[..n];
  }

  /** From `init_vmm` through any happenings that hardware can bring about, to the first panic.  The happenings
      are handled in order, up to and including the first that panics, and the handlers' state is exactly
      where the two machines are after them.  So a tick is pending exactly while the host's timer is masked,
      no tick is early, `timer_irq` exceeds the set-timer calls by at most one, and guest and hardware
      agree on the claims throughout exactly when the happenings are orderly. */
  method Serve(vmm: HostVmm, ctx: TrapContext, start: nat, hs: seq<Happening>) returns (n: nat, r: VmmResult, now: nat)
    requires vmm.Valid() && ctx.Valid() && VT.Initial(vmm.Timer(start)) && vmm.Plic() == VP.INITIAL
    requires AllDecoded(hs) && Possible(vmm.Timer(start), vmm.baseAddr, VP.ContextOf(vmm.guestId), hs)
    modifies vmm, ctx, vmm.dev
    ensures vmm.Valid() && ctx.Valid() && n <= |hs|
    ensures forall i :: 0 <= i < n - 1 ==> ResultAt(vmm.baseAddr, hs[i]) == Ok
    ensures if r == Ok then n == |hs| && (n > 0 ==> ResultAt(vmm.baseAddr, hs[n - 1]) == Ok)
            else n > 0 && r == ResultAt(vmm.baseAddr, hs[n - 1])
    ensures At(old(vmm.Timer(start)), vmm.baseAddr, VP.ContextOf(vmm.guestId), hs, n, vmm.Timer(now), vmm.Plic())
    ensures vmm.externalIrq == old(vmm.externalIrq) + ExternalTraps(hs[..n])
    ensures vmm.vstip <==> !vmm.stie
    ensures vmm.vstip ==> now >= vmm.deadline
    ensures vmm.timerIrq <= VT.SetsIn(TimerEvents(hs[..n])) + 1
    ensures VP.HardwareOk(vmm.Plic())
    ensures VP.AlwaysCoherent(PlicEvents(vmm.baseAddr, VP.ContextOf(vmm.guestId), hs[..n]))
            <==> Orderly(vmm.baseAddr, VP.ContextOf(vmm.guestId), hs[..n])
  {
    hide VT.Run, VP.Run, TimerEvents, PlicEvents, Possible, At, ResultAt, TimerEventAt, PlicEventAt, VT.Step, VP.Step, VT.SetsIn,
         VP.AlwaysCoherent, Orderly;
    ghost var t0, base, own := vmm.Timer(start), vmm.baseAddr, VP.ContextOf(vmm.guestId);
    n, r, now := 0, Ok, start;
    AtStart(t0, base, own, hs);
    while n < |hs| && r == Ok
      invariant n <= |hs| && vmm.Valid() && ctx.Valid()
      invariant forall i :: 0 <= i < n - 1 ==> ResultAt(base, hs[i]) == Ok
      invariant n > 0 ==> r == ResultAt(base, hs[n - 1])
      invariant n == 0 ==> r == Ok
      invariant At(t0, base, own, hs, n, vmm.Timer(now), vmm.Plic())
      invariant vmm.externalIrq == old(vmm.externalIrq) + ExternalTraps(hs[..n])
      decreases |hs| - n
    {
      NextStep(t0, base, own, hs, n, vmm.Timer(now), vmm.Plic());
      assert hs[..n + 1][..n] == hs[..n];
      now, r := ServeOne(vmm, ctx, now, hs[n]);
      n := n + 1;
    }
    InvariantsAt(t0, base, own, hs, n, vmm.Timer(now), vmm.Plic());
  }

  /** One happening. */
  method ServeOne(vmm: HostVmm, ctx: TrapContext, now: nat, h: Happening) returns (later: nat, r: VmmResult)
    requires vmm.Valid() && ctx.Valid() && Decoded(h)
    requires VT.Step(vmm.Timer(now), TimerEventAt(h)).Some?
    requires VP.Step(vmm.Plic(), PlicEventAt(vmm.baseAddr, VP.ContextOf(vmm.guestId), h)).Some?
    modifies vmm, ctx, vmm.dev
    ensures vmm.Valid() && ctx.Valid() && r == ResultAt(vmm.baseAddr, h)
    ensures Some(vmm.Timer(later)) == VT.Step(old(vmm.Timer(now)), TimerEventAt(h))
    ensures Some(vmm.Plic()) == VP.Step(old(vmm.Plic()), PlicEventAt(vmm.baseAddr, VP.ContextOf(vmm.guestId), h))
    ensures vmm.externalIrq == old(vmm.externalIrq) + if h.Trap? && h.cause.SupervisorExternal? then 1 else 0
    ensures h.Trap? ==> ctx.sepc == Resumption(vmm.baseAddr, h.cause, h.sepc)
  {
    hide FaultResult, AccessEvent, LoadedRegisters, SbiAnswer, Served;
    later, r := now, Ok;
    match h {
      case Wait(delta) =>
        later := now + delta;
      case DeviceRaises(irq) =>
        vmm.dev.pending := vmm.dev.pending + {irq};
      case Trap(cause, x, sepc, enabled) =>
        ctx.x, ctx.sepc := x, sepc;
        ghost var te, pe;
        r, te, pe := vmm.HandleTrap(ctx, cause, enabled, now);
    }
  }

  lemma AtStart(t: VT.Timer, base: Word, own: nat, hs: seq<Happening>)
    requires AllDecoded(hs)
    ensures At(t, base, own, hs, 0, t, VP.INITIAL)
  {
  }

  lemma EventsOfPrefix(base: Word, own: nat, hs: seq<Happening>, n: nat)
    requires AllDecoded(hs) && n <= |hs|
    ensures TimerEvents(hs[..n]) == TimerEvents(hs)[..n] && PlicEvents(base, own, hs[..n]) == PlicEvents(base, own, hs)[..n]
  {
    hide TimerEvents, PlicEvents, TimerEventAt, PlicEventAt;
  }

  lemma InvariantsAt(t: VT.Timer, base: Word, own: nat, hs: seq<Happening>, n: nat, u: VT.Timer, s: VP.Vplic)
    requires AllDecoded(hs) && n <= |hs| && At(t, base, own, hs, n, u, s) && VT.Initial(t)
    ensures (u.vstip <==> !u.stie) && (u.vstip ==> u.now >= u.deadline)
    ensures u.ticks <= VT.SetsIn(TimerEvents(hs[..n])) + 1 && VP.HardwareOk(s)
    ensures VP.AlwaysCoherent(PlicEvents(base, own, hs[..n])) <==> Orderly(base, own, hs[..n])
  {
    EventsOfPrefix(base, own, hs, n);
    hide TimerEvents, PlicEvents, VT.Run, VP.Run, VP.AlwaysCoherent, VP.AlwaysDisciplined, VP.Owed, VT.SetsIn;
    VT.EveryTimerRun(t, TimerEvents(hs[..n]));
    VP.HardwareRun(PlicEvents(base, own, hs[..n]));
    VP.EveryPlicRun(PlicEvents(base, own, hs[..n]));
    VP.OwedIsSlot(PlicEvents(base, own, hs[..n]));
  }

  // ---------------------------------------------------------------- a claim and its completion

  /** A guest that loads the claim register of any context c and stores back what it read completes exactly
      the source in that context's slot, whatever saved register it uses (x0 is no register and x4 is not
      saved), and the store empties the slot. */
  lemma ClaimThenComplete(base: Word, own: nat, c: nat, pa: Word, x: seq<Word>, slots: seq<U32>, reg: nat, enabled: bool)
    requires c < 32 && base + 0x20_0008 + 0x1000 * c <= 0x1_0000_0000_0000_0000
    requires |x| == 32 && |slots| == 32 && 0 < reg < 32 && reg != 4
    requires base + 0x20_0004 + 0x1000 * c <= pa < base + 0x20_0008 + 0x1000 * c
    ensures AccessResult(base, pa, Lw(reg)) == Ok && AccessResult(base, pa, Sw(reg)) == Ok
    ensures var loaded := LoadedRegisters(base, pa, Lw(reg), x, slots);
            && loaded == x[reg := slots[c]]
            && AccessEvent(base, own, pa, Sw(reg), loaded, enabled) ==
               (if c == own then VP.GuestComplete(slots[c]) else VP.ForeignComplete(slots[c], enabled))
            && CompletedSlots(base, pa, Sw(reg), slots) == slots[c := 0]
            && CompletedSlots(base, pa, Lw(reg), slots) == slots
  {
    hide VP.DecodeAccess;
    VP.DecodesToClaim(base, c, pa);
  }

  /** Only a store into the four bytes of the guest's own claim register completes on its context, with the
      low word of the stored register, and only a load from there reads its slot. */
  lemma CompletesAt(base: Word, own: nat, pa: Word, inst: Inst, x: seq<Word>, enabled: bool)
    requires own < 32 && base + 0x20_0008 + 0x1000 * own <= 0x1_0000_0000_0000_0000
    requires |x| == 32 && (inst.Sw? ==> inst.rs2 < 32)
    ensures var e, there := AccessEvent(base, own, pa, inst, x, enabled),
                            base + 0x20_0004 + 0x1000 * own <= pa < base + 0x20_0008 + 0x1000 * own;
            && (e.GuestComplete? <==> inst.Sw? && there)
            && (e.GuestComplete? ==> e.value == x[inst.rs2] % 0x1_0000_0000)
            && (e == VP.GuestClaim <==> inst.Lw? && there)
  {
    hide VP.DecodeAccess;
    VP.DecodesToClaim(base, own, pa);
  }

  /** Which guest page faults are served, in terms of addresses: those in the PLIC's window that hit a context's
      registers, from an instruction that could be fetched and decoded, where the threshold is only written
      and the claim register only loaded or stored as a word.  The other registers swallow every access. */
  lemma FaultServed(base: Word, cause: Cause)
    requires cause.GuestPageFault? && base + 0x22_0000 <= 0x1_0000_0000_0000_0000
    ensures var off := cause.addr - base - 0x20_0000;
            FaultResult(base, cause) == Ok <==>
              && 0x0c00_0000 <= cause.addr < 0x1000_0000 && 0 <= off < 0x2_0000
              && (cause.htinst == 0 ==> cause.fetched.Some?) && cause.htinst != 0x3020 && cause.htinst != 0x3000
              && cause.inst.Some?
              && (off % 0x1000 < 4 ==> cause.inst.value.Sw?)
              && (4 <= off % 0x1000 < 8 ==> cause.inst.value.Lw? || cause.inst.value.Sw?)
  {
    var d := cause.addr - base;
    if d >= 0 {
      Euclid(d, 0x1_0000_0000_0000_0000, 0, d);
    } else {
      Euclid(d, 0x1_0000_0000_0000_0000, -1, d + 0x1_0000_0000_0000_0000);
    }
    hide Operands;
  }

  /** The SBI calls that program the guest's timer. */
  predicate SetsTimer(a7: Word, a6: Word) {
    a7 == SBI_SET_TIMER || (a7 == SBI_EXTID_TIME && a6 == 0)
  }

  /** The SBI calls that are served at all. */
  predicate Served(a7: Word, a6: Word) {
    || a7 in {SBI_SET_TIMER, SBI_CONSOLE_PUTCHAR, SBI_CONSOLE_GETCHAR, SBI_EXTID_TIME}
    || (a7 == SBI_EXTID_BASE && a6 <= 6)
  }

  /** The answer of a served call; only the base extension and the console pass the firmware's on. */
  function SbiAnswer(a7: Word, a6: Word, firmware: SbiRet): SbiRet {
    if a7 == SBI_EXTID_BASE && (a6 == 0 || a6 == 3) then firmware
    else if a7 == SBI_EXTID_BASE || a7 == SBI_CONSOLE_GETCHAR then SbiRet(0, firmware.value)
    else if a7 == SBI_EXTID_TIME && a6 != 0 then SbiRet(SBI_ERR_NOT_SUPPORTED, 0)
    else SbiRet(0, 0)
  }

  /** What an access is to the virtual PLIC of context `own`: a store to a completion register completes,
      everything else leaves it alone. */
  function AccessEvent(base: Word, own: nat, pa: Word, inst: Inst, x: seq<Word>, enabled: bool): VP.PlicEvent
    requires |x| == 32 && (inst.Sw? ==> inst.rs2 < 32)
  {
    match VP.DecodeAccess(base, pa)
    case Some((hart, index)) =>
      if index != 1 || inst.OtherInst? then VP.Idle
      else if inst.Lw? then (if hart == own then VP.GuestClaim else VP.Idle)
      else if hart == own then VP.GuestComplete(x[inst.rs2] % 0x1_0000_0000)
      else VP.ForeignComplete(x[inst.rs2] % 0x1_0000_0000, enabled)
    case None => VP.Idle
  }

  /** A load from a claim register reads that context's slot. */
  function LoadedRegisters(base: Word, pa: Word, inst: Inst, x: seq<Word>, slots: seq<U32>): seq<Word>
    requires |x| == 32 && |slots| == VP.MAX_CONTEXTS && (inst.Lw? ==> inst.rd < 32)
  {
    match VP.DecodeAccess(base, pa)
    case Some((hart, index)) => if index == 1 && inst.Lw? then x[inst.rd := slots[hart]] else x
    case None => x
  }

  /** A store to a completion register empties that context's slot. */
  function CompletedSlots(base: Word, pa: Word, inst: Inst, slots: seq<U32>): seq<U32>
    requires |slots| == VP.MAX_CONTEXTS
  {
    match VP.DecodeAccess(base, pa)
    case Some((hart, index)) => if index == 1 && inst.Sw? then slots[hart := 0] else slots
    case None => slots
  }

  /** Which accesses are refused, and how. */
  function AccessResult(base: Word, pa: Word, inst: Inst): VmmResult {
    match VP.DecodeAccess(base, pa)
    case None => Err(Panic)
    case Some((_, index)) =>
      if index == 0 && !inst.Sw? then Err(UnexpectedInst)
      else if index == 1 && inst.OtherInst? then Err(UnexpectedInst)
      else Ok
  }
}
