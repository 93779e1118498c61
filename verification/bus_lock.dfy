/** The shared bus lock and the memory interface of the harts on it, as objects that change in
    place.  Each instruction-level method is tied to the steps of the interleaved protocol it
    consists of, so the theorems about protocol runs are about these methods.

    A method that waits for the lock requires the state in which the wait returns. */
module BusLocking {
  import opened AmoArithmetic
  import opened LrScProtocol

  class BusLock {
    var locked: bool
    var owner: nat

    constructor ()
      ensures !locked
    {
      locked := false;
      owner := 0;
    }

    predicate IsLockedBy(h: nat)
      reads this
    {
      locked && owner == h
    }

    predicate MayAccess(h: nat)
      reads this
    {
      !locked || owner == h
    }

    method Lock(h: nat)
      requires MayAccess(h)
      modifies this
      ensures IsLockedBy(h)
    {
      locked := true;
      owner := h;
    }

    method Unlock(h: nat)
      modifies this
      ensures locked == (old(locked) && old(owner) != h)
      ensures owner == old(owner)
    {
      if locked && owner == h {
        locked := false;
      }
    }
  }

  lemma AfterSnoc(s: System, es: seq<Event>, e: Event)
    ensures After(s, es + [e]) == Apply(After(s, es), e)
  {
    assert (es + [e])[..|es|] == es;
  }

  /** The state after the steps of one instruction of one hart. */
  ghost function AfterOps(s: System, h: nat, ops: seq<Op>): System {
    After(s, seq(|ops|, i requires 0 <= i < |ops| => Do(h, ops[i])))
  }

  lemma {:induction false} AfterOpsSnoc(s: System, h: nat, ops: seq<Op>, op: Op)
    ensures AfterOps(s, h, ops + [op]) == Apply(AfterOps(s, h, ops), Do(h, op))
    ensures AfterOps(s, h, []) == s
  {
    var all := ops + [op];
    AfterSnoc(s, seq(|ops|, i requires 0 <= i < |ops| => Do(h, ops[i])), Do(h, op));
    assert seq(|all|, i requires 0 <= i < |all| => Do(h, all[i]))
        == seq(|ops|, i requires 0 <= i < |ops| => Do(h, ops[i])) + [Do(h, op)];
  }

  lemma AfterOneOp(s: System, h: nat, a: Op)
    ensures AfterOps(s, h, [a]) == Apply(s, Do(h, a))
  {
    AfterOpsSnoc(s, h, [], a);
    assert [] + [a] == [a];
  }

  lemma AfterTwoOps(s: System, h: nat, a: Op, b: Op)
    ensures AfterOps(s, h, [a, b]) == Apply(Apply(s, Do(h, a)), Do(h, b))
  {
    AfterOneOp(s, h, a);
    AfterOpsSnoc(s, h, [a], b);
    assert [a] + [b] == [a, b];
  }

  lemma AfterThreeOps(s: System, h: nat, a: Op, b: Op, c: Op)
    ensures AfterOps(s, h, [a, b, c]) == Apply(AfterOps(s, h, [a, b]), Do(h, c))
  {
    AfterOpsSnoc(s, h, [a, b], c);
    assert [a, b] + [c] == [a, b, c];
  }

  function AmoOps(a: nat, op: AmoOp, operand: word): seq<Op> {
    [AmoLock(a, op, operand), AmoLoad(a), AmoStore(a)]
  }

  lemma AmoLoadedState(s: System, h: nat, a: nat, op: AmoOp, operand: word)
    requires h < |s.harts| && s.harts[h].phase == Ready && s.MayAccess(h)
    ensures AfterOps(s, h, [AmoLock(a, op, operand), AmoLoad(a)])
         == System(s.mem, true, h, s.harts[h := s.harts[h].(phase := AmoLoaded(a, op, operand, Read(s.mem, a)))])
  {
    AfterTwoOps(s, h, AmoLock(a, op, operand), AmoLoad(a));
    var locked := Apply(s, Do(h, AmoLock(a, op, operand)));
    assert locked == System(s.mem, true, h, s.harts[h := s.harts[h].(phase := AmoLocked(a, op, operand))]);
    assert Apply(locked, Do(h, AmoLoad(a))).harts
        == s.harts[h := s.harts[h].(phase := AmoLoaded(a, op, operand, Read(s.mem, a)))];
  }

  /** The three steps of an AMO of a hart that is not kept waiting, in one. */
  lemma AmoInOne(s: System, h: nat, a: nat, op: AmoOp, operand: word)
    requires h < |s.harts| && s.harts[h].phase == Ready && s.MayAccess(h)
    ensures AfterOps(s, h, AmoOps(a, op, operand))
         == System(s.mem[a := Operate(op, Read(s.mem, a), operand)], false, h, s.harts[h := s.harts[h].(phase := Done)])
  {
    AfterThreeOps(s, h, AmoLock(a, op, operand), AmoLoad(a), AmoStore(a));
    AmoLoadedState(s, h, a, op, operand);
    var loaded := AfterOps(s, h, [AmoLock(a, op, operand), AmoLoad(a)]);
    assert Apply(loaded, Do(h, AmoStore(a))).harts == s.harts[h := s.harts[h].(phase := Done)];
  }

  /** The harts, their lock and their memory. */
  class Machine {
    const bus: BusLock
    const harts: array<Hart>
    var ram: map<nat, word>

    constructor (n: nat)
      ensures fresh(bus) && fresh(harts)
      ensures harts.Length == n && Initial(State())
    {
      bus := new BusLock();
      harts := new Hart[n](_ => Hart(Ready, 0, 0));
      ram := map[];
    }

    function State(): System
      reads this, bus, harts
    {
      System(ram, bus.locked, bus.owner, harts[..])
    }

    method RawLoadWord(h: nat, a: nat) returns (data: word)
      requires bus.MayAccess(h)
      ensures data == Read(ram, a)
    {
      data := if a in ram then ram[a] else 0;
    }

    /** Every store, also an ordinary one, ends with the storing hart letting go of the lock. */
    method RawStoreWord(h: nat, a: nat, value: word)
      requires bus.MayAccess(h)
      modifies this`ram, bus
      ensures ram == old(ram)[a := value]
      ensures !bus.locked && bus.owner == old(bus.owner)
    {
      ram := ram[a := value];
      bus.Unlock(h);
    }

    method AtomicLoadReservedWord(h: nat, a: nat) returns (data: word)
      requires h < harts.Length && bus.MayAccess(h)
      modifies bus, harts
      ensures bus.IsLockedBy(h) && data == Read(ram, a)
      ensures harts[..] == old(harts[..])[h := old(harts[h]).(lrAddr := a)]
    {
      bus.Lock(h);
      harts[h] := harts[h].(lrAddr := a);
      data := RawLoadWord(h, a);
    }

    method AtomicStoreConditionalWord(h: nat, a: nat, value: word) returns (ok: bool)
      requires h < harts.Length
      modifies this`ram, bus
      ensures ok <==> old(bus.IsLockedBy(h)) && a == harts[h].lrAddr
      ensures ram == if ok then old(ram)[a := value] else old(ram)
      ensures bus.locked == (old(bus.locked) && old(bus.owner) != h) && bus.owner == old(bus.owner)
    {
      if bus.IsLockedBy(h) {
        if a == harts[h].lrAddr {
          RawStoreWord(h, a, value);
          return true;
        }
        bus.Unlock(h);
      }
      ok := false;
    }

    /** LR.W: the lock step, then the load step. */
    method LrW(h: nat, a: nat) returns (rd: word)
      requires h < harts.Length && harts[h].phase == Ready && bus.MayAccess(h)
      modifies bus, harts
      ensures rd == Read(ram, a) && bus.IsLockedBy(h)
      ensures State() == AfterOps(old(State()), h, [LrLock(a), LrLoad(a)])
    {
      ghost var s := State();
      rd := AtomicLoadReservedWord(h, a);
      if harts[h].counter == 0 {
        harts[h] := harts[h].(counter := 17);
      }
      harts[h] := harts[h].(phase := Done);
      AfterTwoOps(s, h, LrLock(a), LrLoad(a));
      assert State().harts == Apply(Apply(s, Do(h, LrLock(a))), Do(h, LrLoad(a))).harts;
    }

    /** SC.W: the check step, and the write step when the check passes.  0 reports success. */
    method ScW(h: nat, a: nat, value: word) returns (rd: word)
      requires h < harts.Length && harts[h].phase == Ready
      modifies this`ram, bus, harts
      ensures rd == 0 <==> old(bus.IsLockedBy(h)) && a == old(harts[h]).lrAddr
      ensures State() == AfterOps(old(State()), h,
                           if rd == 0 then [ScCheck(a, value), ScWrite(a, value)] else [ScCheck(a, value)])
    {
      ghost var s := State();
      var ok := AtomicStoreConditionalWord(h, a, value);
      rd := if ok then 0 else 1;
      harts[h] := harts[h].(counter := 0, phase := Done);
      AfterOneOp(s, h, ScCheck(a, value));
      AfterTwoOps(s, h, ScCheck(a, value), ScWrite(a, value));
      ghost var checked := Apply(s, Do(h, ScCheck(a, value)));
      assert State().harts == (if ok then Apply(checked, Do(h, ScWrite(a, value))) else checked).harts;
    }

    /** An AMO: lock, load, store and unlock.  The result is the old word. */
    method ExecuteAmo(h: nat, a: nat, op: AmoOp, operand: word) returns (rd: word)
      requires h < harts.Length && harts[h].phase == Ready && bus.MayAccess(h)
      modifies this`ram, bus, harts
      ensures rd == Read(old(ram), a) && !bus.locked
      ensures a in ram && ram == old(ram)[a := ram[a]] && Computes(op, rd, operand, ram[a])
      ensures State() == AfterOps(old(State()), h, AmoOps(a, op, operand))
    {
      AmoInOne(State(), h, a, op, operand);
      bus.Lock(h);
      rd := RawLoadWord(h, a);
      var value := Operate(op, rd, operand);
      OperateComputes(op, rd, operand);
      RawStoreWord(h, a, value);
      harts[h] := harts[h].(phase := Done);
    }

    method StoreWord(h: nat, a: nat, value: word)
      requires h < harts.Length && harts[h].phase == Ready && bus.MayAccess(h)
      modifies this`ram, bus, harts
      ensures State() == Apply(old(State()), Do(h, Store(a, value)))
    {
      RawStoreWord(h, a, value);
      harts[h] := harts[h].(phase := Done);
    }

    /** Entering a trap handler, and WFI, give up the reservation. */
    method ReleaseLrScReservation(h: nat)
      requires h < harts.Length
      modifies bus, harts
      ensures State() == Apply(old(State()), Do(h, Trap))
      ensures old(harts[h].phase) == Ready ==> State() == Apply(old(State()), Do(h, Wfi))
    {
      harts[h] := harts[h].(counter := 0, phase := Done);
      bus.Unlock(h);
    }

    /** The end of an instruction: the counter runs down and the last tick frees the lock. */
    method PerformanceAndSyncUpdate(h: nat)
      requires h < harts.Length && harts[h].phase == Done
      modifies bus, harts
      ensures State() == Apply(old(State()), Do(h, Retire))
    {
      if harts[h].counter != 0 {
        harts[h] := harts[h].(counter := harts[h].counter - 1);
        if harts[h].counter == 0 {
          bus.Unlock(h);
        }
      }
      harts[h] := harts[h].(phase := Ready);
    }
  }
}
