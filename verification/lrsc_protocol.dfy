/** The LR/SC and AMO bus-lock protocol of the rv32 core, as interleaved steps.

    Any number of harts and lock-respecting peripheral ports share one memory and one bus
    lock.  A hart's instruction is cut into the pieces between which another agent may run;
    one memory transaction is one step.  Waiting for the lock is modelled by enabledness: a
    waiting agent takes its step only in a state in which the wait would return. */
module LrScProtocol {
  import opened AmoArithmetic

  /** Where a hart is inside its current instruction. */
  datatype Phase =
    | Ready                                                     // at an instruction boundary
    | LrLocked(addr: nat)                                       // LR.W has locked, not yet loaded
    | ScHeld(addr: nat, value: word)                            // SC.W has passed its checks
    | AmoLocked(addr: nat, op: AmoOp, operand: word)            // AMO has locked, not yet loaded
    | AmoLoaded(addr: nat, op: AmoOp, operand: word, data: word)
    | Done                                                      // executed, not yet counted

  datatype Hart = Hart(phase: Phase, lrAddr: nat, counter: nat)

  datatype System = System(mem: map<nat, word>, locked: bool, owner: nat, harts: seq<Hart>) {
    predicate IsLockedBy(h: nat) { locked && owner == h }

    /** The state in which `wait_for_access_rights` lets hart `h` through. */
    predicate MayAccess(h: nat) { !locked || owner == h }

    function Unlock(h: nat): System {
      if IsLockedBy(h) then this.(locked := false) else this
    }

    function SetHart(h: nat, hart: Hart): System
      requires h < |harts|
    {
      this.(harts := harts[h := hart])
    }
  }

  function Read(mem: map<nat, word>, a: nat): word {
    if a in mem then mem[a] else 0
  }

  /** One piece of an instruction; `Exec` touches neither memory nor the lock. */
  datatype Op =
    | Load(addr: nat)
    | Store(addr: nat, value: word)
    | LrLock(addr: nat)
    | LrLoad(addr: nat)
    | ScCheck(addr: nat, value: word)
    | ScWrite(addr: nat, value: word)
    | AmoLock(addr: nat, op: AmoOp, operand: word)
    | AmoLoad(addr: nat)
    | AmoStore(addr: nat)
    | Exec
    | Wfi
    | Trap
    | Retire

  /** One step of one agent. */
  datatype Event =
    | Do(hart: nat, op: Op)
    | DmaRead(port: nat, addr: nat)
    | DmaWrite(port: nat, addr: nat, value: word)
  {
    predicate ByHart(h: nat) { Do? && hart == h }

    predicate IsWrite() {
      DmaWrite? || (Do? && (op.Store? || op.ScWrite? || op.AmoStore?))
    }

    predicate TouchesMemory() {
      DmaRead? || IsWrite() || (Do? && (op.Load? || op.LrLoad? || op.AmoLoad?))
    }
  }

  predicate OpEnabled(s: System, h: nat, op: Op)
    requires h < |s.harts|
  {
    var phase := s.harts[h].phase;
    match op
    case Load(_) => phase == Ready && s.MayAccess(h)
    case Store(_, _) => phase == Ready && s.MayAccess(h)
    case LrLock(_) => phase == Ready && s.MayAccess(h)
    case LrLoad(a) => phase == LrLocked(a) && s.MayAccess(h)
    case ScCheck(_, _) => phase == Ready
    case ScWrite(a, v) => phase == ScHeld(a, v) && s.MayAccess(h)
    case AmoLock(_, _, _) => phase == Ready && s.MayAccess(h)
    case AmoLoad(a) => phase.AmoLocked? && phase.addr == a && s.MayAccess(h)
    case AmoStore(a) => phase.AmoLoaded? && phase.addr == a && s.MayAccess(h)
    case Exec => phase == Ready
    case Wfi => phase == Ready
    case Trap => true
    case Retire => phase == Done
  }

  predicate Enabled(s: System, e: Event) {
    match e
    case Do(h, op) => h < |s.harts| && OpEnabled(s, h, op)
    case DmaRead(_, _) => !s.locked
    case DmaWrite(_, _, _) => !s.locked
  }

  function ApplyOp(s: System, h: nat, op: Op): System
    requires h < |s.harts| && OpEnabled(s, h, op)
  {
    var hart := s.harts[h];
    match op
    case Load(_) => s
    case Store(a, v) =>
      s.(mem := s.mem[a := v]).Unlock(h).SetHart(h, hart.(phase := Done))
    case LrLock(a) =>
      s.(locked := true, owner := h).SetHart(h, hart.(phase := LrLocked(a), lrAddr := a))
    case LrLoad(_) =>
      s.SetHart(h, hart.(phase := Done, counter := if hart.counter == 0 then 17 else hart.counter))
    case ScCheck(a, v) =>
      if s.IsLockedBy(h) && a == hart.lrAddr then
        s.SetHart(h, hart.(phase := ScHeld(a, v)))
      else
        s.Unlock(h).SetHart(h, hart.(phase := Done, counter := 0))
    case ScWrite(a, v) =>
      s.(mem := s.mem[a := v]).Unlock(h).SetHart(h, hart.(phase := Done, counter := 0))
    case AmoLock(a, amo, operand) =>
      s.(locked := true, owner := h).SetHart(h, hart.(phase := AmoLocked(a, amo, operand)))
    case AmoLoad(a) =>
      s.SetHart(h, hart.(phase := AmoLoaded(a, hart.phase.op, hart.phase.operand, Read(s.mem, a))))
    case AmoStore(a) =>
      var value := Operate(hart.phase.op, hart.phase.data, hart.phase.operand);
      s.(mem := s.mem[a := value]).Unlock(h).SetHart(h, hart.(phase := Done))
    case Exec => s.SetHart(h, hart.(phase := Done))
    case Wfi => s.Unlock(h).SetHart(h, hart.(phase := Done, counter := 0))
    case Trap => s.Unlock(h).SetHart(h, hart.(phase := Done, counter := 0))
    case Retire =>
      (if hart.counter == 1 then s.Unlock(h) else s)
        .SetHart(h, hart.(phase := Ready, counter := if hart.counter == 0 then 0 else hart.counter - 1))
  }

  /** The state after a step; a step that is not enabled leaves the agent waiting. */
  function Apply(s: System, e: Event): System {
    if !Enabled(s, e) then s else
      match e
      case Do(h, op) => ApplyOp(s, h, op)
      case DmaRead(_, _) => s
      case DmaWrite(_, a, v) => s.(mem := s.mem[a := v])
  }

  /** The state a sequence of steps ends in. */
  function After(s: System, es: seq<Event>): System {
    if es == [] then s else Apply(After(s, es[..|es|-1]), es[|es|-1])
  }

  /** `es` is a run from `s`: every step is enabled where it happens. */
  predicate IsRun(s: System, es: seq<Event>) {
    es == [] ||
    (IsRun(s, es[..|es|-1]) && Enabled(After(s, es[..|es|-1]), es[|es|-1]))
  }

  predicate Initial(s: System) {
    !s.locked && forall h :: 0 <= h < |s.harts| ==> s.harts[h] == Hart(Ready, 0, 0)
  }

  // ---------------------------------------------------------------- the state invariant

  /** Mid-instruction phases that rely on the lock being held. */
  predicate HoldsInside(phase: Phase) {
    phase.LrLocked? || phase.ScHeld? || phase.AmoLocked? || phase.AmoLoaded?
  }

  /** What every reachable state says of a hart: inside an atomic sequence it owns the lock, an
      AMO's loaded data is what memory holds, and an owner between instructions has a running
      counter. */
  ghost predicate HartOk(s: System, h: nat)
    requires h < |s.harts|
  {
    var hart := s.harts[h];
    && hart.counter <= (if hart.phase.Done? then 17 else 16)
    && (HoldsInside(hart.phase) ==> s.IsLockedBy(h))
    && (hart.phase.ScHeld? ==> hart.counter > 0 && hart.phase.addr == hart.lrAddr)
    && (hart.phase.LrLocked? ==> hart.phase.addr == hart.lrAddr)
    && (hart.phase.AmoLoaded? ==> hart.phase.data == Read(s.mem, hart.phase.addr))
    && (s.IsLockedBy(h) && (hart.phase.Ready? || hart.phase.Done?) ==> hart.counter > 0)
  }

  ghost predicate Ok(s: System) {
    && (s.locked ==> s.owner < |s.harts|)
    && forall h :: 0 <= h < |s.harts| ==> HartOk(s, h)
  }

  lemma OwnStepOk(s: System, h: nat, op: Op)
    requires Ok(s) && h < |s.harts| && OpEnabled(s, h, op)
    ensures |ApplyOp(s, h, op).harts| == |s.harts|
    ensures HartOk(ApplyOp(s, h, op), h)
    ensures ApplyOp(s, h, op).locked ==> ApplyOp(s, h, op).owner < |s.harts|
  {
    assert HartOk(s, h);
  }

  /** A step of another agent does not change a hart, nor whether it owns the lock. */
  lemma OthersKeepOff(s: System, h: nat, op: Op, other: nat)
    requires Ok(s) && h < |s.harts| && other < |s.harts| && other != h && OpEnabled(s, h, op)
    ensures |ApplyOp(s, h, op).harts| == |s.harts|
    ensures ApplyOp(s, h, op).harts[other] == s.harts[other]
    ensures ApplyOp(s, h, op).IsLockedBy(other) == s.IsLockedBy(other)
    ensures s.IsLockedBy(other) ==> ApplyOp(s, h, op).mem == s.mem
  {
    assert HartOk(s, h);
  }

  lemma OkStep(s: System, e: Event)
    requires Ok(s)
    ensures Ok(Apply(s, e)) && |Apply(s, e).harts| == |s.harts|
  {
    if Enabled(s, e) {
      if e.Do? {
        OwnStepOk(s, e.hart, e.op);
      }
      forall h | 0 <= h < |s.harts| ensures |Apply(s, e).harts| == |s.harts| && HartOk(Apply(s, e), h) {
        assert HartOk(s, h);
        if e.Do? && h != e.hart {
          OthersKeepOff(s, e.hart, e.op, h);
        }
      }
    }
  }

  lemma {:induction false} OkAfter(s: System, es: seq<Event>)
    requires Ok(s)
    ensures Ok(After(s, es)) && |After(s, es).harts| == |s.harts|
  {
    if es != [] {
      OkAfter(s, es[..|es|-1]);
      OkStep(After(s, es[..|es|-1]), es[|es|-1]);
    }
  }

  /** Splits a run at step `t`. */
  lemma {:induction false} RunStep(s: System, es: seq<Event>, t: nat)
    requires IsRun(s, es) && t < |es|
    ensures IsRun(s, es[..t])
    ensures Enabled(After(s, es[..t]), es[t])
    ensures After(s, es[..t+1]) == Apply(After(s, es[..t]), es[t])
  {
    var front := es[..|es|-1];
    if t < |front| {
      RunStep(s, front, t);
      assert front[..t] == es[..t] && front[..t+1] == es[..t+1];
    } else {
      assert es[..t] == front && es[..t+1] == es;
    }
  }

  // ---------------------------------------------------------------- atomicity over runs

  /** Nothing between a hart's reservation and its use: not a write, and not a newer LR. */
  predicate Quiet(e: Event, h: nat) {
    !e.IsWrite() && !(e.ByHart(h) && (e.op.LrLock? || e.op.LrLoad?))
  }

  /** `es[i]` is the step `first`, and since then only steps quiet for `h` happened. */
  ghost predicate Since(es: seq<Event>, first: Event, h: nat, i: nat) {
    && i < |es|
    && es[i] == first
    && forall j :: i < j < |es| ==> Quiet(es[j], h)
  }

  ghost predicate SinceSome(es: seq<Event>, first: Event, h: nat) {
    exists i :: Since(es, first, h, i)
  }

  /** The step that opened the hold a hart relies on, if its state says there is one. */
  function Opening(s: System, h: nat): seq<Event>
    requires h < |s.harts|
  {
    var hart := s.harts[h];
    match hart.phase
    case AmoLoaded(a, _, _, _) => [Do(h, AmoLoad(a))]
    case AmoLocked(_, _, _) => []
    case LrLocked(_) => []
    case _ => if s.IsLockedBy(h) then [Do(h, LrLoad(hart.lrAddr))] else []
  }

  ghost predicate Remembers(s: System, es: seq<Event>, h: nat)
    requires h < |s.harts|
  {
    Opening(s, h) != [] ==> SinceSome(es, Opening(s, h)[0], h)
  }

  lemma SinceExtends(es: seq<Event>, e: Event, first: Event, h: nat)
    requires SinceSome(es, first, h) && Quiet(e, h)
    ensures SinceSome(es + [e], first, h)
  {
    var i :| Since(es, first, h, i);
    assert Since(es + [e], first, h, i);
  }

  lemma SinceNow(es: seq<Event>, first: Event, h: nat)
    ensures SinceSome(es + [first], first, h)
  {
    assert Since(es + [first], first, h, |es|);
  }

  /** A hold is opened by the step that just happened, or was open and the step is quiet. */
  lemma OpeningStep(s: System, e: Event, h: nat)
    requires Ok(s) && Enabled(s, e) && h < |s.harts|
    ensures |Apply(s, e).harts| == |s.harts|
    ensures Opening(Apply(s, e), h) == [] || Opening(Apply(s, e), h) == [e]
            || (Opening(Apply(s, e), h) == Opening(s, h) && Quiet(e, h))
  {
    OkStep(s, e);
    assert HartOk(s, h) && HartOk(Apply(s, e), h);
  }

  lemma {:induction false} RemembersReachable(s: System, es: seq<Event>, h: nat)
    requires Initial(s) && IsRun(s, es) && h < |s.harts|
    ensures |After(s, es).harts| == |s.harts|
    ensures Remembers(After(s, es), es, h)
  {
    OkAfter(s, es);
    if es != [] {
      var front, last := es[..|es|-1], es[|es|-1];
      RemembersReachable(s, front, h);
      OkAfter(s, front);
      OpeningStep(After(s, front), last, h);
      assert front + [last] == es;
      if Opening(After(s, es), h) == [last] {
        SinceNow(front, last, h);
      } else if Opening(After(s, es), h) != [] {
        SinceExtends(front, last, Opening(After(s, es), h)[0], h);
      }
    }
  }

  lemma OnlyWritesWrite(s: System, e: Event)
    requires !e.IsWrite()
    ensures Apply(s, e).mem == s.mem
  {
  }

  lemma {:induction false} MemoryStays(s: System, es: seq<Event>, i: nat)
    requires i <= |es|
    requires forall j :: i <= j < |es| ==> !es[j].IsWrite()
    ensures After(s, es).mem == After(s, es[..i]).mem
  {
    if i < |es| {
      var front := es[..|es|-1];
      MemoryStays(s, front, i);
      OnlyWritesWrite(After(s, front), es[|es|-1]);
      assert front[..i] == es[..i];
    } else {
      assert es[..i] == es;
    }
  }

  lemma SinceKeepsMemory(s: System, es: seq<Event>, first: Event, h: nat) returns (i: nat)
    requires SinceSome(es, first, h) && !first.IsWrite()
    ensures Since(es, first, h, i)
    ensures After(s, es).mem == After(s, es[..i]).mem
  {
    i :| Since(es, first, h, i);
    assert forall j :: i < j < |es| ==> Quiet(es[j], h);
    MemoryStays(s, es, i);
  }

  /** Hart `h`'s AMO stored what its operation computes from the word memory held just before. */
  ghost predicate StoresResult(before: System, after: System, h: nat, a: nat) {
    && h < |before.harts|
    && before.harts[h].phase.AmoLoaded?
    && var phase := before.harts[h].phase;
       && after.mem == before.mem[a := Read(after.mem, a)]
       && Computes(phase.op, Read(before.mem, a), phase.operand, Read(after.mem, a))
  }

  /** What the final step of a successful SC.W, and of an AMO, finds and does. */
  lemma ClosingStep(s: System, h: nat, op: Op)
    requires Ok(s) && h < |s.harts| && OpEnabled(s, h, op) && (op.ScWrite? || op.AmoStore?)
    ensures op.ScWrite? ==> Opening(s, h) == [Do(h, LrLoad(op.addr))]
    ensures op.ScWrite? ==> ApplyOp(s, h, op).mem == s.mem[op.addr := op.value]
    ensures op.AmoStore? ==> Opening(s, h) == [Do(h, AmoLoad(op.addr))]
    ensures op.AmoStore? ==> StoresResult(s, ApplyOp(s, h, op), h, op.addr)
  {
    assert HartOk(s, h);
    if op.AmoStore? {
      var phase := s.harts[h].phase;
      OperateComputes(phase.op, phase.data, phase.operand);
    }
  }

  /** SC.W is atomic with the LR.W it pairs with: over every interleaving, a successful SC.W
      follows that hart's latest LR.W, which was to the same address, no agent wrote memory in
      between, and the SC.W writes over the very memory the LR.W read. */
  lemma ScAtomic(s: System, es: seq<Event>, t: nat) returns (i: nat)
    requires Initial(s) && IsRun(s, es) && t < |es| && es[t].Do? && es[t].op.ScWrite?
    ensures i < t && es[i] == Do(es[t].hart, LrLoad(es[t].op.addr))
    ensures forall j :: i < j < t ==> Quiet(es[j], es[t].hart)
    ensures After(s, es[..t+1]).mem == After(s, es[..i]).mem[es[t].op.addr := es[t].op.value]
  {
    var h, prefix := es[t].hart, es[..t];
    RunStep(s, es, t);
    OkAfter(s, prefix);
    RemembersReachable(s, prefix, h);
    ClosingStep(After(s, prefix), h, es[t].op);
    i := SinceKeepsMemory(s, prefix, Do(h, LrLoad(es[t].op.addr)), h);
    assert prefix[..i] == es[..i];
    assert forall j :: i < j < t ==> Quiet(prefix[j], h) && prefix[j] == es[j];
  }

  /** An AMO is one read-modify-write: nothing writes between its load and its store, so what
      it stores is its operation applied to the word in memory just before its store. */
  lemma AmoAtomic(s: System, es: seq<Event>, t: nat) returns (i: nat)
    requires Initial(s) && IsRun(s, es) && t < |es| && es[t].Do? && es[t].op.AmoStore?
    ensures i < t && es[i] == Do(es[t].hart, AmoLoad(es[t].op.addr))
    ensures forall j :: i < j < t ==> !es[j].IsWrite()
    ensures After(s, es[..t]).mem == After(s, es[..i]).mem
    ensures StoresResult(After(s, es[..t]), After(s, es[..t+1]), es[t].hart, es[t].op.addr)
  {
    var h, a, prefix := es[t].hart, es[t].op.addr, es[..t];
    RunStep(s, es, t);
    OkAfter(s, prefix);
    RemembersReachable(s, prefix, h);
    ClosingStep(After(s, prefix), h, es[t].op);
    i := SinceKeepsMemory(s, prefix, Do(h, AmoLoad(a)), h);
    assert prefix[..i] == es[..i];
    assert forall j :: i < j < t ==> Quiet(prefix[j], h) && prefix[j] == es[j];
  }

  /** Mutual exclusion: in a state reached with a hart owning the lock, the next memory
      transaction, by whichever agent, is the owner's. */
  lemma OwnerHasTheBus(s: System, es: seq<Event>, t: nat)
    requires Initial(s) && IsRun(s, es) && t < |es| && es[t].TouchesMemory()
    ensures After(s, es[..t]).locked ==> es[t].ByHart(After(s, es[..t]).owner)
  {
    RunStep(s, es, t);
  }

  // ---------------------------------------------------------------- bounded hold, progress

  /** How many instructions hart `h` finishes in `es`. */
  function Retired(es: seq<Event>, h: nat): nat {
    if es == [] then 0
    else Retired(es[..|es|-1], h) + if es[|es|-1] == Do(h, Retire) then 1 else 0
  }

  /** Hart `h` owns the lock in every state of the run. */
  ghost predicate OwnsThroughout(s: System, es: seq<Event>, h: nat) {
    After(s, es).IsLockedBy(h) &&
    (es != [] ==> OwnsThroughout(s, es[..|es|-1], h))
  }

  /** While a hart keeps a lock it holds with a running counter, no step of any agent raises
      that counter, and finishing an instruction lowers it. */
  lemma HoldStep(s: System, e: Event, h: nat)
    requires Enabled(s, e) && h < |s.harts| && s.harts[h].counter > 0
    requires s.IsLockedBy(h) && Apply(s, e).IsLockedBy(h)
    ensures |Apply(s, e).harts| == |s.harts|
    ensures Apply(s, e).harts[h].counter == s.harts[h].counter - (if e == Do(h, Retire) then 1 else 0)
    ensures Apply(s, e).harts[h].counter > 0
  {
  }

  /** A hold that starts at an instruction boundary only counts down. */
  lemma {:induction false} HoldCountsDown(s: System, es: seq<Event>, h: nat)
    requires Ok(s) && IsRun(s, es) && h < |s.harts|
    requires s.harts[h].phase == Ready && OwnsThroughout(s, es, h)
    ensures |After(s, es).harts| == |s.harts|
    ensures 0 < After(s, es).harts[h].counter == s.harts[h].counter - Retired(es, h)
  {
    if es == [] {
      assert HartOk(s, h);
    } else {
      HoldCountsDown(s, es[..|es|-1], h);
      HoldStep(After(s, es[..|es|-1]), es[|es|-1], h);
    }
  }

  /** Bounded hold: no hart can keep the lock, from an instruction boundary on, while it
      finishes sixteen instructions, whatever it executes and whatever the others do. */
  lemma BoundedHold(s: System, es: seq<Event>, more: seq<Event>, h: nat)
    requires Initial(s) && IsRun(s, es) && h < |After(s, es).harts|
    requires After(s, es).harts[h].phase == Ready
    requires IsRun(After(s, es), more) && OwnsThroughout(After(s, es), more, h)
    ensures Retired(more, h) < After(s, es).harts[h].counter <= 16
  {
    OkAfter(s, es);
    assert HartOk(After(s, es), h);
    HoldCountsDown(After(s, es), more, h);
  }

  /** A step that can stand in a constrained LR/SC loop of hart `h` between LR.W and SC.W. */
  predicate Constrained(e: Event, h: nat) {
    e.ByHart(h) ==> e.op.Load? || e.op.Exec? || e.op.Retire?
  }

  /** The hart after finishing `n` instructions, and whether it still owns the lock. */
  ghost predicate HasCounted(start: Hart, s: System, n: nat, h: nat)
    requires h < |s.harts|
  {
    var hart := s.harts[h];
    && (hart.phase.Ready? || hart.phase.Done?)
    && hart.lrAddr == start.lrAddr
    && hart.counter == (if n < start.counter then start.counter - n else 0)
    && (s.IsLockedBy(h) <==> n < start.counter)
  }

  lemma ConstrainedOwnStep(start: Hart, s: System, h: nat, op: Op, n: nat)
    requires h < |s.harts| && OpEnabled(s, h, op) && HasCounted(start, s, n, h)
    requires op.Load? || op.Exec? || op.Retire?
    ensures |ApplyOp(s, h, op).harts| == |s.harts|
    ensures HasCounted(start, ApplyOp(s, h, op), if op == Retire then n + 1 else n, h)
  {
  }

  lemma ConstrainedStep(start: Hart, s: System, e: Event, n: nat, h: nat)
    requires Ok(s) && Enabled(s, e) && h < |s.harts|
    requires HasCounted(start, s, n, h) && Constrained(e, h)
    ensures |Apply(s, e).harts| == |s.harts|
    ensures HasCounted(start, Apply(s, e), if e == Do(h, Retire) then n + 1 else n, h)
  {
    if e.ByHart(h) {
      ConstrainedOwnStep(start, s, h, e.op, n);
    } else if e.Do? {
      OthersKeepOff(s, e.hart, e.op, h);
    }
  }

  /** The lock outlives a constrained sequence exactly while fewer instructions have finished
      than the counter allows, however other harts and ports interleave. */
  lemma {:induction false} ReservationKept(s: System, es: seq<Event>, h: nat)
    requires Ok(s) && IsRun(s, es) && h < |s.harts| && s.IsLockedBy(h) && s.harts[h].phase == Ready
    requires forall j :: 0 <= j < |es| ==> Constrained(es[j], h)
    ensures |After(s, es).harts| == |s.harts|
    ensures HasCounted(s.harts[h], After(s, es), Retired(es, h), h)
  {
    if es == [] {
      assert HartOk(s, h);
    } else {
      var front := es[..|es|-1];
      ReservationKept(s, front, h);
      OkAfter(s, front);
      ConstrainedStep(s.harts[h], After(s, front), es[|es|-1], Retired(front, h), h);
    }
  }

  /** Forward progress: once an LR.W that opened a hold has finished, an SC.W to its address
      passes its checks exactly when at most fifteen constrained instructions came between. */
  lemma ConstrainedLoopSucceeds(s: System, es: seq<Event>, h: nat, a: nat, v: word)
    requires Ok(s) && h < |s.harts| && s.harts[h] == Hart(Ready, a, 16) && s.IsLockedBy(h)
    requires IsRun(s, es) && forall j :: 0 <= j < |es| ==> Constrained(es[j], h)
    requires |After(s, es).harts| == |s.harts| && After(s, es).harts[h].phase == Ready
    ensures var tried := Apply(After(s, es), Do(h, ScCheck(a, v)));
            |tried.harts| == |s.harts| &&
            (tried.harts[h].phase == ScHeld(a, v) <==> Retired(es, h) <= 15)
  {
    ReservationKept(s, es, h);
  }

  // ---------------------------------------------------------------- eventual success

  /** What decides a hart's LR/SC attempts: its own record, and whether it owns the lock. */
  datatype View = View(hart: Hart, owns: bool)

  function ViewOf(s: System, h: nat): View
    requires h < |s.harts|
  {
    View(s.harts[h], s.IsLockedBy(h))
  }

  /** The steps of an attempt: LR.W, constrained instructions, and the checks of SC.W. */
  predicate InAttempt(op: Op) {
    op.LrLock? || op.LrLoad? || op.Load? || op.Exec? || op.Retire? || op.ScCheck?
  }

  function OwnStep(w: View, op: Op): View {
    match op
    case LrLock(a) => View(w.hart.(phase := LrLocked(a), lrAddr := a), true)
    case LrLoad(_) => w.(hart := w.hart.(phase := Done, counter := if w.hart.counter == 0 then 17 else w.hart.counter))
    case Exec => w.(hart := w.hart.(phase := Done))
    case Retire =>
      View(w.hart.(phase := Ready, counter := if w.hart.counter == 0 then 0 else w.hart.counter - 1),
           w.owns && w.hart.counter != 1)
    case ScCheck(a, v) =>
      if w.owns && a == w.hart.lrAddr then w.(hart := w.hart.(phase := ScHeld(a, v)))
      else View(w.hart.(phase := Done, counter := 0), false)
    case _ => w
  }

  function OwnRun(w: View, ops: seq<Op>): View {
    if ops == [] then w else OwnStep(OwnRun(w, ops[..|ops|-1]), ops[|ops|-1])
  }

  /** The hart's own steps in a run. */
  function OwnOps(es: seq<Event>, h: nat): seq<Op> {
    if es == [] then []
    else OwnOps(es[..|es|-1], h) + if es[|es|-1].ByHart(h) then [es[|es|-1].op] else []
  }

  lemma ViewStep(s: System, e: Event, h: nat)
    requires Ok(s) && Enabled(s, e) && h < |s.harts| && (e.ByHart(h) ==> InAttempt(e.op))
    ensures |Apply(s, e).harts| == |s.harts|
    ensures ViewOf(Apply(s, e), h) == if e.ByHart(h) then OwnStep(ViewOf(s, h), e.op) else ViewOf(s, h)
  {
    if e.Do? && e.hart != h {
      OthersKeepOff(s, e.hart, e.op, h);
    }
  }

  lemma OwnRunSnoc(w: View, ops: seq<Op>, op: Op)
    ensures OwnRun(w, ops + [op]) == OwnStep(OwnRun(w, ops), op)
  {
    assert (ops + [op])[..|ops|] == ops;
  }

  predicate AllInAttempt(ops: seq<Op>) {
    forall i :: 0 <= i < |ops| ==> InAttempt(ops[i])
  }

  lemma AllButLast(ops: seq<Op>, op: Op)
    requires AllInAttempt(ops + [op])
    ensures AllInAttempt(ops) && InAttempt(op)
  {
    assert forall i :: 0 <= i < |ops| ==> (ops + [op])[i] == ops[i];
    assert (ops + [op])[|ops|] == op;
  }

  /** Whatever the other agents do in between, the hart's own steps decide its view. */
  lemma {:induction false} ViewRun(s: System, es: seq<Event>, h: nat)
    requires Ok(s) && IsRun(s, es) && h < |s.harts| && AllInAttempt(OwnOps(es, h))
    ensures |After(s, es).harts| == |s.harts|
    ensures ViewOf(After(s, es), h) == OwnRun(ViewOf(s, h), OwnOps(es, h))
  {
    if es != [] {
      var front, last := es[..|es|-1], es[|es|-1];
      var ops := OwnOps(front, h);
      if last.ByHart(h) {
        AllButLast(ops, last.op);
        OwnRunSnoc(ViewOf(s, h), ops, last.op);
      } else {
        assert OwnOps(es, h) == ops;
      }
      ViewRun(s, front, h);
      OkAfter(s, front);
      ViewStep(After(s, front), last, h);
    }
  }

  lemma {:induction false} OwnRunConcat(w: View, a: seq<Op>, b: seq<Op>)
    ensures OwnRun(w, a + b) == OwnRun(OwnRun(w, a), b)
  {
    if b == [] {
      assert a + b == a;
    } else {
      var front, last := b[..|b|-1], b[|b|-1];
      OwnRunConcat(w, a, front);
      OwnRunSnoc(w, a + front, last);
      OwnRunSnoc(OwnRun(w, a), front, last);
      assert a + front + [last] == a + b && front + [last] == b;
    }
  }

  predicate IsConstrained(ops: seq<Op>) {
    forall i :: 0 <= i < |ops| ==> ops[i].Load? || ops[i].Exec? || ops[i].Retire?
  }

  function Finished(ops: seq<Op>): nat {
    if ops == [] then 0 else Finished(ops[..|ops|-1]) + if ops[|ops|-1].Retire? then 1 else 0
  }

  /** Constrained instructions run the counter down, and the lock is lost when it comes to zero. */
  lemma {:induction false} ConstrainedCounts(w: View, ops: seq<Op>)
    requires IsConstrained(ops) && (w.owns ==> w.hart.counter > 0)
    ensures var w' := OwnRun(w, ops); var n := Finished(ops);
      && w'.hart.lrAddr == w.hart.lrAddr
      && w'.hart.counter == (if n < w.hart.counter then w.hart.counter - n else 0)
      && w'.owns == (w.owns && n < w.hart.counter)
  {
    if ops != [] {
      ConstrainedCounts(w, ops[..|ops|-1]);
    }
  }

  /** An attempt at address `a`: LR.W, a constrained body, and the checks of SC.W. */
  function Attempt(a: nat, body: seq<Op>, v: word): seq<Op> {
    [LrLock(a), LrLoad(a), Retire] + body + [ScCheck(a, v)]
  }

  /** How many instructions fit between LR.W and SC.W: a running counter is not loaded again. */
  function Allowance(counter: nat): nat {
    if counter == 0 then 16 else counter - 1
  }

  /** The view after LR.W and its end of instruction. */
  function Reserved(w: View, a: nat): View {
    var left := Allowance(w.hart.counter);
    View(w.hart.(phase := Ready, lrAddr := a, counter := left), left > 0)
  }

  lemma ThreeSteps(w: View, x: Op, y: Op, z: Op)
    ensures OwnRun(w, [x, y, z]) == OwnStep(OwnStep(OwnStep(w, x), y), z)
  {
    OwnRunSnoc(w, [], x);
    OwnRunSnoc(w, [x], y);
    OwnRunSnoc(w, [x, y], z);
    assert [] + [x] == [x] && [x] + [y] == [x, y] && [x, y] + [z] == [x, y, z];
  }

  lemma LrView(w: View, a: nat)
    ensures OwnRun(w, [LrLock(a), LrLoad(a), Retire]) == Reserved(w, a)
  {
    ThreeSteps(w, LrLock(a), LrLoad(a), Retire);
  }

  lemma AttemptView(w: View, a: nat, body: seq<Op>, v: word)
    requires IsConstrained(body)
    ensures var w' := OwnRun(w, Attempt(a, body, v));
      if Finished(body) < Allowance(w.hart.counter) then w'.hart.phase == ScHeld(a, v)
      else w'.hart.phase == Done && w'.hart.counter == 0 && !w'.owns
  {
    var lr := [LrLock(a), LrLoad(a), Retire];
    LrView(w, a);
    OwnRunConcat(w, lr, body);
    ConstrainedCounts(OwnRun(w, lr), body);
    OwnRunSnoc(w, lr + body, ScCheck(a, v));
  }

  /** A failed attempt, what the loop executes until it tries again, and the next attempt. */
  function TwoAttempts(a: nat, body: seq<Op>, v: word, gap: seq<Op>, a': nat, body': seq<Op>, v': word): seq<Op> {
    Attempt(a, body, v) + [Retire] + gap + Attempt(a', body', v')
  }

  lemma AttemptOps(a: nat, body: seq<Op>, v: word)
    requires IsConstrained(body)
    ensures AllInAttempt(Attempt(a, body, v))
  {
  }

  lemma TwoAttemptsOps(a: nat, body: seq<Op>, v: word, gap: seq<Op>, a': nat, body': seq<Op>, v': word)
    requires IsConstrained(body) && IsConstrained(gap) && IsConstrained(body')
    ensures AllInAttempt(TwoAttempts(a, body, v, gap, a', body', v'))
  {
    AttemptOps(a, body, v);
    AttemptOps(a', body', v');
    var first, second := Attempt(a, body, v), Attempt(a', body', v');
    assert AllInAttempt(first + [Retire]);
    assert AllInAttempt(first + [Retire] + gap);
  }

  lemma TwoAttemptsView(w: View, a: nat, body: seq<Op>, v: word, gap: seq<Op>, a': nat, body': seq<Op>, v': word)
    requires IsConstrained(body) && IsConstrained(gap) && IsConstrained(body')
    requires Finished(body) >= Allowance(w.hart.counter) && Finished(body') <= 15
    ensures OwnRun(w, TwoAttempts(a, body, v, gap, a', body', v')).hart.phase == ScHeld(a', v')
  {
    var first := Attempt(a, body, v);
    AttemptView(w, a, body, v);
    OwnRunSnoc(w, first, Retire);
    OwnRunConcat(w, first + [Retire], gap);
    ConstrainedCounts(OwnRun(w, first + [Retire]), gap);
    OwnRunConcat(w, first + [Retire] + gap, Attempt(a', body', v'));
    AttemptView(OwnRun(w, first + [Retire] + gap), a', body', v');
  }

  /** The outcome of an attempt, from every reachable instruction boundary and over every
      interleaving: its SC.W passes the checks exactly when the body fits the allowance, and else
      leaves the counter at zero. */
  lemma AttemptOutcome(s: System, es: seq<Event>, more: seq<Event>, h: nat, a: nat, body: seq<Op>, v: word)
    requires Initial(s) && IsRun(s, es) && IsRun(After(s, es), more) && h < |After(s, es).harts|
    requires OwnOps(more, h) == Attempt(a, body, v) && IsConstrained(body)
    ensures |After(After(s, es), more).harts| == |After(s, es).harts|
    ensures var tried := After(After(s, es), more).harts[h];
      if Finished(body) < Allowance(After(s, es).harts[h].counter) then tried.phase == ScHeld(a, v)
      else tried.phase == Done && tried.counter == 0
  {
    OkAfter(s, es);
    AttemptOps(a, body, v);
    ViewRun(After(s, es), more, h);
    AttemptView(ViewOf(After(s, es), h), a, body, v);
  }

  /** Eventual success: from every reachable instruction boundary, if an attempt fails, the next one
      passes its checks as long as at most fifteen constrained instructions stand in its body; `gap`
      is what the loop executes between the two. */
  lemma NextAttemptSucceeds(s: System, es: seq<Event>, more: seq<Event>, h: nat,
                            a: nat, body: seq<Op>, v: word, gap: seq<Op>, a': nat, body': seq<Op>, v': word)
    requires Initial(s) && IsRun(s, es) && IsRun(After(s, es), more) && h < |After(s, es).harts|
    requires OwnOps(more, h) == TwoAttempts(a, body, v, gap, a', body', v')
    requires IsConstrained(body) && IsConstrained(gap) && IsConstrained(body')
    requires Finished(body) >= Allowance(After(s, es).harts[h].counter) && Finished(body') <= 15
    ensures |After(After(s, es), more).harts| == |After(s, es).harts|
    ensures After(After(s, es), more).harts[h].phase == ScHeld(a', v')
  {
    OkAfter(s, es);
    TwoAttemptsOps(a, body, v, gap, a', body', v');
    ViewRun(After(s, es), more, h);
    TwoAttemptsView(ViewOf(After(s, es), h), a, body, v, gap, a', body', v');
  }

  /** The step an owner can take in each phase of an instruction. */
  function NextOwnStep(s: System, h: nat): Op
    requires h < |s.harts|
  {
    match s.harts[h].phase
    case Ready => Exec
    case LrLocked(a) => LrLoad(a)
    case ScHeld(a, v) => ScWrite(a, v)
    case AmoLocked(a, _, _) => AmoLoad(a)
    case AmoLoaded(a, _, _, _) => AmoStore(a)
    case Done => Retire
  }

  /** No deadlock: whoever is inside an atomic sequence owns the lock (the assertion in
      `atomic_store_word` holds) and can go on, and an owner between instructions is not kept
      waiting by any memory operation. */
  lemma OwnerNeverBlocks(s: System, es: seq<Event>, h: nat, op: Op)
    requires Initial(s) && IsRun(s, es) && h < |After(s, es).harts|
    ensures
      var here := After(s, es);
      && OpEnabled(here, h, NextOwnStep(here, h))
      && (HoldsInside(here.harts[h].phase) ==> here.IsLockedBy(h))
      && (here.IsLockedBy(h) && here.harts[h].phase == Ready
          && (op.Load? || op.Store? || op.LrLock? || op.AmoLock?)
          ==> OpEnabled(here, h, op))
  {
    OkAfter(s, es);
    assert HartOk(After(s, es), h);
  }
}
