/** Trap entry and return as the core performs them, updating its registers in place. */
module TrapHart {
  import opened MemoryAccess
  import opened TrapSpec

  /** Trap entry, register group by register group. */
  lemma EnterByParts(h: Hart, h': Hart, level: Level, line: nat)
    requires var r := h.At(level); var saved := Saved(r, level, h.prv, h.pc, r.cause);
             && h'.prv == level.Privilege()
             && h'.pc == HandlerPc(saved, h.pc, r.cause) && h'.ivt == HandlerIvt(saved, h.ivt, r.cause, line)
             && h'.stack == SwapSp(h.stack, h.swaps, level, h.prv)
             && h'.m == (if level == M then saved else h.m)
             && h'.s == (if level == S then saved else h.s)
             && h'.vs == (if level == VS then saved else h.vs)
    requires h'.mprv == h.mprv && h'.swaps == h.swaps
    requires h'.spvp == if level == S && PrivilegeLevelToV(h.prv) != 0 then PrivilegeLevelToPP(h.prv) else h.spvp
    ensures h' == Enter(h, level, h.At(level).cause, line)
  {
  }

  class Iss {
    var prv: nat
    var pc: nat
    var lastPc: nat
    var sp: nat
    var mtsp: nat
    var stsp: nat
    var htsp: nat
    var vstsp: nat
    var m: Registers
    var s: Registers
    var vs: Registers
    var mprv: bool
    var spvp: nat
    var ivt: Ivt
    var swaps: Swaps

    constructor (h: Hart)
      ensures Value() == h
    {
      prv, pc, lastPc, mprv, spvp, ivt, swaps := h.prv, h.pc, h.pc, h.mprv, h.spvp, h.ivt, h.swaps;
      sp, mtsp, stsp, htsp, vstsp := h.stack.sp, h.stack.mtsp, h.stack.stsp, h.stack.htsp, h.stack.vstsp;
      m, s, vs := h.m, h.s, h.vs;
    }

    function StackValue(): Stack
      reads this
    {
      Stack(sp, mtsp, stsp, htsp, vstsp)
    }

    function Value(): Hart
      reads this
    {
      Hart(prv, pc, StackValue(), m, s, vs, mprv, spvp, ivt, swaps)
    }

    method StspSwapSpOnModeChange(level: Level, from: nat)
      modifies this`sp, this`mtsp, this`stsp, this`htsp, this`vstsp
      ensures StackValue() == SwapSp(old(StackValue()), swaps, level, from)
    {
      match level
      case M =>
        if swaps.m {
          if from != MACHINE {
            sp, mtsp := mtsp, sp;
          }
        }
      case VS =>
        if swaps.vs {
          if from != VIRTUAL_SUPERVISOR {
            sp, vstsp := vstsp, sp;
          }
        }
      case S =>
        if swaps.hs {
          if PrivilegeLevelToV(from) != 0 {
            sp, htsp := htsp, sp;
          }
        }
        if swaps.s {
          if PrivilegeLevelToV(from) == 0 && from != SUPERVISOR {
            sp, stsp := stsp, sp;
          }
        }
    }

    method SetCause(level: Level, cause: Cause)
      modifies this`m, this`s, this`vs
      ensures m == if level == M then old(m).(cause := cause) else old(m)
      ensures s == if level == S then old(s).(cause := cause) else old(s)
      ensures vs == if level == VS then old(vs).(cause := cause) else old(vs)
    {
      match level
      case M => m := m.(cause := cause);
      case S => s := s.(cause := cause);
      case VS => vs := vs.(cause := cause);
    }

    /** Chooses the level of an exception and restores the pc of the instruction that raised it. */
    method PrepareTrap(reason: nat, delegated: bool, guestDelegated: bool) returns (level: Level)
      requires IsPrivilege(prv)
      modifies this`pc, this`m, this`s, this`vs
      ensures level == ExceptionTarget(prv, delegated, guestDelegated) && MayTrap(prv, level)
      ensures IsExceptionTarget(prv, delegated, guestDelegated, level)
      ensures pc == lastPc
      ensures m == if level == M then old(m).(cause := Cause(false, reason)) else old(m)
      ensures s == if level == S then old(s).(cause := Cause(false, reason)) else old(s)
      ensures vs == if level == VS then old(vs).(cause := Cause(false, reason)) else old(vs)
    {
      pc := lastPc;
      if prv == MACHINE || !delegated {
        level := M;
      } else if prv == SUPERVISOR || prv == USER || !guestDelegated {
        level := S;
      } else {
        assert prv == VIRTUAL_SUPERVISOR || prv == VIRTUAL_USER;
        level := VS;
      }
      SetCause(level, Cause(false, reason));
    }

    method JumpToTrapVector(r: Registers, line: nat)
      modifies this`pc, this`ivt
      ensures pc == HandlerPc(r, old(pc), r.cause)
      ensures ivt == HandlerIvt(r, old(ivt), r.cause, line)
    {
      if r.cause.interrupt && r.tvecMode == Vectored {
        pc := W32(r.tvecBase + 4 * r.cause.code);
      } else if r.cause.interrupt && r.tvecMode == NestedVectored {
        ivt := Pending(W32(r.tvecBase + 4 * line));
      } else if !r.cause.interrupt && r.tvecMode == NestedVectored {
        ivt := Pending(W32(r.tvecBase));
      } else {
        pc := if r.tvecMode == Vectored then W32(r.tvecBase) else r.tvecBase;
      }
    }

    /** Saves pc, interrupt enable and privilege in the registers of the target level. */
    method SaveTrapState(level: Level, pp: nat)
      requires IsPrivilege(pp) && MayTrap(pp, level)
      modifies this`m, this`s, this`vs, this`spvp
      ensures m == if level == M then Saved(old(m), level, pp, pc, old(m).cause) else old(m)
      ensures s == if level == S then Saved(old(s), level, pp, pc, old(s).cause) else old(s)
      ensures vs == if level == VS then Saved(old(vs), level, pp, pc, old(vs).cause) else old(vs)
      ensures spvp == if level == S && PrivilegeLevelToV(pp) != 0 then PrivilegeLevelToPP(pp) else old(spvp)
    {
      match level
      case M =>
        m := m.(epc := pc, pie := m.ie, ie := false, pp := PrivilegeLevelToPP(pp), pv := PrivilegeLevelToV(pp));
      case VS =>
        assert pp == VIRTUAL_SUPERVISOR || pp == VIRTUAL_USER;
        vs := vs.(epc := pc, pie := vs.ie, ie := false, pp := PrivilegeLevelToPP(pp));
      case S =>
        assert pp == SUPERVISOR || pp == VIRTUAL_SUPERVISOR || pp == USER || pp == VIRTUAL_USER;
        s := s.(epc := pc, pie := s.ie, ie := false, pp := PrivilegeLevelToPP(pp), pv := PrivilegeLevelToV(pp));
        if PrivilegeLevelToV(pp) != 0 {
          spvp := PrivilegeLevelToPP(pp);
        }
    }

    /** Enters the trap handler of a level whose cause register is set. */
    method SwitchToTrapHandler(level: Level, line: nat)
      requires IsPrivilege(prv) && MayTrap(prv, level)
      modifies this
      ensures Value() == Enter(old(Value()), level, old(Value()).At(level).cause, line)
      ensures lastPc == old(lastPc)
    {
      var pp := prv;
      prv := level.Privilege();
      StspSwapSpOnModeChange(level, pp);
      SaveTrapState(level, pp);
      var r := match level case M => m case S => s case VS => vs;
      JumpToTrapVector(r, line);
      EnterByParts(old(Value()), Value(), level, line);
    }

    /** An exception in the running instruction, from its delegation to the first handler pc. */
    method TakeException(reason: nat, delegated: bool, guestDelegated: bool) returns (level: Level)
      requires IsPrivilege(prv)
      modifies this
      ensures level == ExceptionTarget(old(prv), delegated, guestDelegated)
      ensures IsExceptionTarget(old(prv), delegated, guestDelegated, level)
      ensures Value() == Enter(old(Value()).(pc := old(lastPc)), level, Cause(false, reason), 0)
    {
      level := PrepareTrap(reason, delegated, guestDelegated);
      SwitchToTrapHandler(level, 0);
    }

    /** Takes pc, interrupt enable and privilege back from the registers of a level. */
    method RestoreTrapState(level: Level)
      modifies this`prv, this`pc, this`m, this`s, this`vs, this`mprv
      ensures prv == ReturnPrivilege(old(Value()), level) && pc == old(Value()).At(level).epc
      ensures m == if level == M then Restored(old(m), level) else old(m)
      ensures s == if level == S then Restored(old(s), level) else old(s)
      ensures vs == if level == VS then Restored(old(vs), level) else old(vs)
      ensures mprv == if level == M && prv == MACHINE then old(mprv) else false
    {
      match level
      case M =>
        prv := VPPToPrivilegeLevel(m.pv, m.pp);
        pc := m.epc;
        m := m.(ie := m.pie, pie := true, pv := 0, pp := USER);
        if prv != MACHINE {
          mprv := false;
        }
      case VS =>
        prv := VPPToPrivilegeLevel(1, vs.pp);
        pc := vs.epc;
        vs := vs.(ie := vs.pie, pie := true, pp := USER);
        mprv := false;
      case S =>
        prv := VPPToPrivilegeLevel(s.pv, s.pp);
        pc := s.epc;
        s := s.(ie := s.pie, pie := true, pv := 0, pp := USER);
        mprv := false;
    }

    /** An xRET instruction. */
    method ReturnFromTrapHandler(level: Level)
      modifies this
      ensures Value() == Return(old(Value()), level)
    {
      RestoreTrapState(level);
      StspSwapSpOnModeChange(level, prv);
    }
  }
}
