/** Trap entry, xRET and the stack-pointer swap over the five privilege levels, as functions on the
    state they touch, and what a well-nested run of traps gives back. */
module TrapSpec {
  import opened MemoryAccess

  predicate IsPrivilege(p: nat) {
    p == USER || p == SUPERVISOR || p == MACHINE || p == VIRTUAL_USER || p == VIRTUAL_SUPERVISOR
  }

  function PrivilegeLevelToPP(p: nat): nat { p % 4 }

  function PrivilegeLevelToV(p: nat): nat { p / 4 % 2 }

  function VPPToPrivilegeLevel(v: nat, pp: nat): nat {
    if pp == MACHINE then pp else 4 * v + pp
  }

  /** Saving a level as nominal privilege and virtualization bit loses nothing. */
  lemma SavedPrivilege(p: nat)
    requires IsPrivilege(p)
    ensures VPPToPrivilegeLevel(PrivilegeLevelToV(p), PrivilegeLevelToPP(p)) == p
    ensures p == VIRTUAL_SUPERVISOR || p == VIRTUAL_USER ==> VPPToPrivilegeLevel(1, PrivilegeLevelToPP(p)) == p
  {
  }

  /** The levels traps are taken to, and the privilege their handlers run at. */
  datatype Level = M | S | VS {
    function Privilege(): nat {
      match this case M => MACHINE case S => SUPERVISOR case VS => VIRTUAL_SUPERVISOR
    }

    function Rank(): nat {
      match this case M => 2 case S => 1 case VS => 0
    }
  }

  datatype Cause = Cause(interrupt: bool, code: nat)

  datatype TvecMode = Direct | Vectored | NestedVectored

  /** The registers of one level.  `pv` is MPV or SPV; VS level has none and ignores it. */
  datatype Registers = Registers(ie: bool, pie: bool, pp: nat, pv: nat, epc: nat, cause: Cause,
                                 tvecMode: TvecMode, tvecBase: nat)

  /** The stack pointer and the trap stack pointers it is exchanged with. */
  datatype Stack = Stack(sp: nat, mtsp: nat, stsp: nat, htsp: nat, vstsp: nat)

  /** Which exchanges are enabled: mtsp, stsp, htsp and vgtsp in the environment registers. */
  datatype Swaps = Swaps(m: bool, s: bool, hs: bool, vs: bool)

  /** A pending fetch of a handler address from the interrupt vector table. */
  datatype Ivt = None | Pending(entryAddress: nat)

  datatype Hart = Hart(prv: nat, pc: nat, stack: Stack, m: Registers, s: Registers, vs: Registers,
                       mprv: bool, spvp: nat, ivt: Ivt, swaps: Swaps)
  {
    function At(level: Level): Registers {
      match level case M => m case S => s case VS => vs
    }
  }

  function W32(x: nat): nat { x % 0x1_0000_0000 }

  // ---------------------------------------------------------------- the operations

  /** Exchanges the stack pointer with a trap stack pointer when the mode changes; `from` is the
      mode a trap came from or an xRET goes to. */
  function SwapSp(st: Stack, swaps: Swaps, level: Level, from: nat): Stack {
    match level
    case M =>
      if swaps.m && from != MACHINE then st.(sp := st.mtsp, mtsp := st.sp) else st
    case VS =>
      if swaps.vs && from != VIRTUAL_SUPERVISOR then st.(sp := st.vstsp, vstsp := st.sp) else st
    case S =>
      if PrivilegeLevelToV(from) != 0 then
        if swaps.hs then st.(sp := st.htsp, htsp := st.sp) else st
      else if swaps.s && from != SUPERVISOR then st.(sp := st.stsp, stsp := st.sp)
      else st
  }

  /** The exchange is its own inverse. */
  lemma SwapTwice(st: Stack, swaps: Swaps, level: Level, from: nat)
    ensures SwapSp(SwapSp(st, swaps, level, from), swaps, level, from) == st
  {
  }

  /** The privilege levels a trap may be taken to a level from; the source asserts them. */
  predicate MayTrap(from: nat, level: Level) {
    match level
    case M => true
    case S => from != MACHINE
    case VS => from == VIRTUAL_SUPERVISOR || from == VIRTUAL_USER
  }

  /** The registers of the level a trap is taken to. */
  function Saved(r: Registers, level: Level, from: nat, pc: nat, cause: Cause): Registers {
    Registers(false, r.ie, PrivilegeLevelToPP(from), if level == VS then r.pv else PrivilegeLevelToV(from),
              pc, cause, r.tvecMode, r.tvecBase)
  }

  /** Where the handler begins; nested-vectored entries leave the pc and wait for a table fetch. */
  function HandlerPc(r: Registers, pc: nat, cause: Cause): nat {
    match r.tvecMode
    case NestedVectored => pc
    case Vectored => W32(r.tvecBase + if cause.interrupt then 4 * cause.code else 0)
    case Direct => r.tvecBase
  }

  function HandlerIvt(r: Registers, ivt: Ivt, cause: Cause, line: nat): Ivt {
    if r.tvecMode == NestedVectored then
      Pending(W32(r.tvecBase + if cause.interrupt then 4 * line else 0))
    else ivt
  }

  /** Trap entry for a cause; `line` is the vector-table line of a nested-vectored interrupt. */
  function Enter(h: Hart, level: Level, cause: Cause, line: nat): Hart {
    var r := h.At(level);
    var saved := Saved(r, level, h.prv, h.pc, cause);
    Hart(level.Privilege(), HandlerPc(r, h.pc, cause), SwapSp(h.stack, h.swaps, level, h.prv),
         if level == M then saved else h.m, if level == S then saved else h.s, if level == VS then saved else h.vs,
         h.mprv, if level == S && PrivilegeLevelToV(h.prv) != 0 then PrivilegeLevelToPP(h.prv) else h.spvp,
         HandlerIvt(r, h.ivt, cause, line), h.swaps)
  }

  /** The privilege an xRET goes to. */
  function ReturnPrivilege(h: Hart, level: Level): nat {
    VPPToPrivilegeLevel(if level == VS then 1 else h.At(level).pv, h.At(level).pp)
  }

  function Restored(r: Registers, level: Level): Registers {
    r.(ie := r.pie, pie := true, pp := USER, pv := if level == VS then r.pv else 0)
  }

  /** MRET, SRET at S level, and SRET at VS level. */
  function Return(h: Hart, level: Level): Hart {
    var to := ReturnPrivilege(h, level);
    var restored := Restored(h.At(level), level);
    Hart(to, h.At(level).epc, SwapSp(h.stack, h.swaps, level, to),
         if level == M then restored else h.m, if level == S then restored else h.s,
         if level == VS then restored else h.vs,
         if level == M && to == MACHINE then h.mprv else false, h.spvp, h.ivt, h.swaps)
  }

  // ---------------------------------------------------------------- where a trap goes

  /** The level an exception is taken to under the delegation registers. */
  function ExceptionTarget(prv: nat, delegated: bool, guestDelegated: bool): Level {
    if prv == MACHINE || !delegated then M
    else if prv == SUPERVISOR || prv == USER || !guestDelegated then S
    else VS
  }

  predicate GloballyEnabled(h: Hart, level: Level) {
    match level
    case M => h.prv != MACHINE || h.m.ie
    case S => (h.prv != MACHINE && h.prv != SUPERVISOR) || (h.prv == SUPERVISOR && h.s.ie)
    case VS => h.prv == VIRTUAL_USER || (h.prv == VIRTUAL_SUPERVISOR && h.vs.ie)
  }

  /** The level an interrupt is taken to, given the levels with something pending. */
  function InterruptTarget(h: Hart, m: bool, s: bool, vs: bool): seq<Level> {
    if m && GloballyEnabled(h, M) then [M]
    else if s && GloballyEnabled(h, S) then [S]
    else if vs && GloballyEnabled(h, VS) then [VS]
    else []
  }

  /** The levels an exception is delegated to: always M, S by medeleg, VS by hedeleg as well. */
  predicate DelegatedTo(level: Level, delegated: bool, guestDelegated: bool) {
    match level
    case M => true
    case S => delegated
    case VS => delegated && guestDelegated
  }

  /** The lowest level that the exception is delegated to and that may take it. */
  ghost predicate IsExceptionTarget(prv: nat, delegated: bool, guestDelegated: bool, level: Level) {
    && DelegatedTo(level, delegated, guestDelegated) && MayTrap(prv, level)
    && forall other :: DelegatedTo(other, delegated, guestDelegated) && MayTrap(prv, other) ==>
         level.Rank() <= other.Rank()
  }

  lemma ExceptionTargetIsLowest(prv: nat, delegated: bool, guestDelegated: bool)
    requires IsPrivilege(prv)
    ensures IsExceptionTarget(prv, delegated, guestDelegated, ExceptionTarget(prv, delegated, guestDelegated))
  {
  }

  /** A level takes an interrupt from every privilege that may trap to it, except from its own while
      its enable is clear; and the highest level with one to take takes it. */
  lemma InterruptTargetIsHighest(h: Hart, m: bool, s: bool, vs: bool)
    requires IsPrivilege(h.prv)
    ensures forall level :: GloballyEnabled(h, level) <==>
              MayTrap(h.prv, level) && (h.prv == level.Privilege() ==> h.At(level).ie)
    ensures
      var ready := (level: Level) =>
        (match level case M => m case S => s case VS => vs) && GloballyEnabled(h, level);
      match |InterruptTarget(h, m, s, vs)|
      case 0 => forall level :: !ready(level)
      case _ => ready(InterruptTarget(h, m, s, vs)[0])
                && forall level :: ready(level) ==> level.Rank() <= InterruptTarget(h, m, s, vs)[0].Rank()
  {
  }

  /** What entry leaves for the handler to read: the cause, the interrupted pc, privilege and enable,
      and for a trap of a guest to S the guest's privilege; other levels keep their registers. */
  lemma EntryRecords(h: Hart, level: Level, cause: Cause, line: nat)
    requires IsPrivilege(h.prv) && MayTrap(h.prv, level)
    ensures var h' := Enter(h, level, cause, line); var r := h'.At(level);
      && h'.prv == level.Privilege() && !r.ie && r.pie == h.At(level).ie && r.epc == h.pc && r.cause == cause
      && VPPToPrivilegeLevel(if level == VS then 1 else r.pv, r.pp) == h.prv
      && (forall other :: other != level ==> h'.At(other) == h.At(other))
      && (level == S && h.prv == VIRTUAL_SUPERVISOR ==> h'.spvp == SUPERVISOR)
      && (level == S && h.prv == VIRTUAL_USER ==> h'.spvp == USER)
  {
    SavedPrivilege(h.prv);
  }

  /** What xRET leaves: the saved pc, privilege and enable are in force, the level's own record reads as
      a trap from user mode with interrupts on, and other levels keep their registers.  Leaving for a
      privilege below M drops the modified-privilege bit. */
  lemma ReturnLeaves(h: Hart, level: Level, from: nat)
    requires IsPrivilege(from) && MayTrap(from, level)
    requires h.At(level).pp == PrivilegeLevelToPP(from)
    requires level != VS ==> h.At(level).pv == PrivilegeLevelToV(from)
    ensures var h' := Return(h, level); var r, r' := h.At(level), h'.At(level);
      && h'.prv == from && h'.pc == r.epc && r'.ie == r.pie && r'.pie && r'.pp == USER
      && (level != VS ==> r'.pv == 0)
      && (forall other :: other != level ==> h'.At(other) == h.At(other))
      && h'.mprv == (level == M && from == MACHINE && h.mprv)
      && h'.stack == SwapSp(h.stack, h.swaps, level, from)
  {
    SavedPrivilege(from);
  }

  /** Where handlers begin: exceptions at the base; vectored interrupts four bytes apart by cause;
      nested-vectored traps wait for the fetch of their table line, four bytes apart by line. */
  lemma HandlerAddresses(r: Registers, pc: nat, ivt: Ivt, code: nat, line: nat)
    requires r.tvecBase + 4 * code < 0x1_0000_0000 && r.tvecBase + 4 * line < 0x1_0000_0000
    ensures r.tvecMode != NestedVectored ==> HandlerPc(r, pc, Cause(false, code)) == r.tvecBase
    ensures r.tvecMode == Direct ==> HandlerPc(r, pc, Cause(true, code)) == r.tvecBase
    ensures r.tvecMode == Vectored ==> HandlerPc(r, pc, Cause(true, code)) - r.tvecBase == 4 * code
    ensures r.tvecMode != NestedVectored ==> HandlerIvt(r, ivt, Cause(true, code), line) == ivt
    ensures r.tvecMode == NestedVectored ==>
              HandlerPc(r, pc, Cause(true, code)) == pc
              && HandlerIvt(r, ivt, Cause(true, code), line) == Pending(r.tvecBase + 4 * line)
              && HandlerIvt(r, ivt, Cause(false, code), line) == Pending(r.tvecBase)
  {
  }

  /** Which stack pointer a handler gets.  A trap from the level's own privilege keeps sp; from another
      one it takes the level's trap stack pointer, if enabled, and leaves sp there.  At S a trap out of
      a guest uses the pointer and the enable of its own. */
  lemma HandlerStack(st: Stack, swaps: Swaps, level: Level, from: nat)
    requires IsPrivilege(from) && MayTrap(from, level)
    ensures var st' := SwapSp(st, swaps, level, from);
      && (from == level.Privilege() ==> st' == st)
      && (level == M && from != MACHINE ==> if swaps.m then st'.sp == st.mtsp && st'.mtsp == st.sp else st' == st)
      && (level == S && from == USER ==> if swaps.s then st'.sp == st.stsp && st'.stsp == st.sp else st' == st)
      && (level == S && (from == VIRTUAL_USER || from == VIRTUAL_SUPERVISOR) ==>
            if swaps.hs then st'.sp == st.htsp && st'.htsp == st.sp else st' == st)
      && (level == VS && from == VIRTUAL_USER ==>
            if swaps.vs then st'.sp == st.vstsp && st'.vstsp == st.sp else st' == st)
      && (level != M ==> st'.mtsp == st.mtsp) && (level != VS ==> st'.vstsp == st.vstsp)
      && (level != S ==> st'.stsp == st.stsp && st'.htsp == st.htsp)
      && (st'.stsp == st.stsp || st'.htsp == st.htsp)
  {
  }

  /** Traps never lower the privilege, so the assertions of trap entry hold. */
  lemma TargetsAreLegal(h: Hart, delegated: bool, guestDelegated: bool, m: bool, s: bool, vs: bool)
    requires IsPrivilege(h.prv)
    ensures MayTrap(h.prv, ExceptionTarget(h.prv, delegated, guestDelegated))
    ensures forall level :: level in InterruptTarget(h, m, s, vs) ==> MayTrap(h.prv, level)
  {
  }

  /** A handler that has not changed its level's enable is interrupted by higher levels only. */
  lemma EntryMasksItsLevel(h: Hart, level: Level, m: bool, s: bool, vs: bool)
    requires h.prv == level.Privilege() && !h.At(level).ie
    ensures forall next :: next in InterruptTarget(h, m, s, vs) ==> next.Rank() > level.Rank()
  {
  }

  // ---------------------------------------------------------------- well-nested runs

  /** What a handler does: work that moves pc and sp, and further traps with their handlers.  The
      pending vector-table fetch of a nested-vectored entry is the first piece of work. */
  datatype Body =
    | End
    | Work(pc: nat, sp: nat, rest: Body)
    | Trap(target: Level, cause: Cause, line: nat, handler: Body, rest: Body)

  function Worked(h: Hart, pc: nat, sp: nat): Hart {
    h.(pc := pc, stack := h.stack.(sp := sp), ivt := None)
  }

  function Run(h: Hart, body: Body): Hart
    decreases body
  {
    match body
    case End => h
    case Work(pc, sp, rest) => Run(Worked(h, pc, sp), rest)
    case Trap(target, cause, line, handler, rest) =>
      Run(Return(Run(Enter(h, target, cause, line), handler), target), rest)
  }

  /** A balanced run of a handler at `level`: nested traps go to strictly higher levels, and every
      handler puts its stack pointer back and has its entry address fetched before it returns. */
  predicate Balanced(h: Hart, level: Level, body: Body)
    decreases body
  {
    match body
    case End => true
    case Work(pc, sp, rest) => Balanced(Worked(h, pc, sp), level, rest)
    case Trap(target, cause, line, handler, rest) =>
      var entered := Enter(h, target, cause, line);
      var ended := Run(entered, handler);
      && target.Rank() > level.Rank() && h.ivt == None
      && Balanced(entered, target, handler)
      && ended.stack.sp == entered.stack.sp && ended.ivt == None
      && Balanced(Return(ended, target), level, rest)
  }

  /** The parts of a level's registers that a trap to it and back leaves alone. */
  predicate SameOutline(r: Registers, r': Registers) {
    r'.ie == r.ie && r'.tvecMode == r.tvecMode && r'.tvecBase == r.tvecBase
  }

  /** Interrupt enables, trap vectors, trap stack pointers and the swap enables of all levels. */
  predicate SameOutlines(h: Hart, h': Hart) {
    && SameOutline(h.m, h'.m) && SameOutline(h.s, h'.s) && SameOutline(h.vs, h'.vs)
    && h'.stack == h.stack.(sp := h'.stack.sp) && h'.swaps == h.swaps
  }

  /** All registers of the levels below `level`. */
  predicate SameBelow(h: Hart, h': Hart, level: Level) {
    && (level != VS ==> h'.vs == h.vs)
    && (level == M ==> h'.s == h.s && h'.spvp == h.spvp)
  }

  /** What a run at `level` keeps: its privilege, the registers of its level and below, and of the
      levels above everything but what the last trap to them left behind. */
  predicate KeepsForLevel(h: Hart, h': Hart, level: Level) {
    && h'.prv == h.prv
    && h'.At(level) == h.At(level) && SameBelow(h, h', level) && SameOutlines(h, h')
    && (level != VS ==> h'.spvp == h.spvp)
    && (level == M ==> h'.mprv == h.mprv)
  }

  /** What a trap to `level`, its handler and the return give back. */
  predicate TrapUndone(h: Hart, h': Hart, level: Level) {
    && h'.prv == h.prv && h'.pc == h.pc && h'.stack == h.stack
    && SameBelow(h, h', level) && SameOutlines(h, h')
    && h'.mprv == (h.prv == MACHINE && h.mprv)
  }

  /** One trap, its handler's net effect, and the return. */
  lemma TrapAndReturn(h: Hart, level: Level, cause: Cause, line: nat, ended: Hart)
    requires IsPrivilege(h.prv) && MayTrap(h.prv, level)
    requires KeepsForLevel(Enter(h, level, cause, line), ended, level)
    requires ended.stack.sp == Enter(h, level, cause, line).stack.sp
    ensures TrapUndone(h, Return(ended, level), level) && Return(ended, level).ivt == ended.ivt
  {
  }

  lemma KeepsThenKeeps(h: Hart, h1: Hart, h2: Hart, level: Level)
    requires KeepsForLevel(h, h1, level) && KeepsForLevel(h1, h2, level)
    ensures KeepsForLevel(h, h2, level)
  {
  }

  /** A nested trap to a higher level is within what a run keeps. */
  lemma UndoneKeeps(h: Hart, h': Hart, level: Level, target: Level)
    requires h.prv == level.Privilege() && target.Rank() > level.Rank() && TrapUndone(h, h', target)
    ensures KeepsForLevel(h, h', level)
  {
  }

  lemma {:induction false} BalancedRunKeeps(h: Hart, level: Level, body: Body)
    requires h.prv == level.Privilege() && Balanced(h, level, body)
    ensures KeepsForLevel(h, Run(h, body), level)
    decreases body
  {
    match body
    case End =>
    case Work(pc, sp, rest) =>
      var worked := Worked(h, pc, sp);
      BalancedRunKeeps(worked, level, rest);
      KeepsThenKeeps(h, worked, Run(worked, rest), level);
    case Trap(target, cause, line, handler, rest) =>
      var entered := Enter(h, target, cause, line);
      var ended := Run(entered, handler);
      EntryRunsAtLevel(h, target, cause, line);
      BalancedRunKeeps(entered, target, handler);
      TrapAndReturn(h, target, cause, line, ended);
      UndoneKeeps(h, Return(ended, target), level, target);
      BalancedRunKeeps(Return(ended, target), level, rest);
      KeepsThenKeeps(h, Return(ended, target), Run(h, body), level);
  }

  lemma EntryRunsAtLevel(h: Hart, level: Level, cause: Cause, line: nat)
    ensures Enter(h, level, cause, line).prv == level.Privilege()
    ensures !Enter(h, level, cause, line).At(level).ie
  {
  }

  /** Nested trap round trip: from every privilege level, a trap to any level that may take it, any
      balanced run of its handler, with traps to higher levels nested to any depth, and the
      matching xRET give back privilege, pc, stack pointer, the interrupt enable and the trap stack
      pointer of every level, and all registers of the levels below; MPRV survives exactly a trap
      out of and back into machine mode. */
  lemma NestedTrapRoundTrip(h: Hart, level: Level, cause: Cause, line: nat, handler: Body)
    requires IsPrivilege(h.prv) && MayTrap(h.prv, level)
    requires Balanced(Enter(h, level, cause, line), level, handler)
    requires Run(Enter(h, level, cause, line), handler).stack.sp == Enter(h, level, cause, line).stack.sp
    ensures TrapUndone(h, Return(Run(Enter(h, level, cause, line), handler), level), level)
  {
    EntryRunsAtLevel(h, level, cause, line);
    BalancedRunKeeps(Enter(h, level, cause, line), level, handler);
    TrapAndReturn(h, level, cause, line, Run(Enter(h, level, cause, line), handler));
  }

  /** The privilege of a level's user mode: what a return finds after the level has returned once. */
  function UserOf(level: Level): nat {
    if level == VS then VIRTUAL_USER else USER
  }

  /** Nesting must go strictly up.  A second trap to the same level, at `pc`, whose handler keeps what
      handlers keep, is itself undone, but it has overwritten what the level saved: the outer return
      then goes to `pc`, at the level's user privilege, with the level's interrupts enabled.  So the
      outer trap is undone exactly when all three are what they were. */
  lemma SameLevelNesting(h: Hart, level: Level, cause: Cause, line: nat, pc: nat,
                         cause': Cause, line': nat, ended: Hart)
    requires IsPrivilege(h.prv) && MayTrap(h.prv, level)
    requires var running := Enter(h, level, cause, line).(pc := pc, ivt := None);
             && KeepsForLevel(Enter(running, level, cause', line'), ended, level)
             && ended.stack.sp == Enter(running, level, cause', line').stack.sp
    ensures
      var nested := Return(ended, level);
      var outer := Return(nested, level);
      && nested.prv == level.Privilege() && nested.pc == pc
      && outer.pc == pc && outer.prv == UserOf(level) && outer.At(level).ie
      && (TrapUndone(h, outer, level) <==> pc == h.pc && h.prv == UserOf(level) && h.At(level).ie)
  {
    SavedPrivilege(h.prv);
    var running := Enter(h, level, cause, line).(pc := pc, ivt := None);
    TrapAndReturn(running, level, cause', line', ended);
  }
}
