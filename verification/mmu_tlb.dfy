/** The memory-management unit: the page-table walk as the loop it is, and the direct-mapped TLB
    in front of it. */
module Mmu {
  import opened Division
  import opened MemoryAccess
  import opened MmuSpec
  import opened MmuStatus

  const TLB_ENTRIES: nat := 256
  const INVALID: nat := TWO_64 - 1

  datatype TlbEntry = TlbEntry(ppn: nat, vpn: nat)

  datatype Result = Address(pa: nat) | Trap(code: nat, mtval: nat)

  function ModeOf(prv: nat): Mode { if prv == SUPERVISOR then Supervisor else User }

  function ModeIndex(mode: Mode): nat { match mode case User => 0 case Supervisor => 1 }

  /** What a cached entry answers for a physical address: its frame is kept in 32 bits. */
  function Cached(pa: nat): nat { FrameOf(pa) % TWO_32 }

  lemma CachedAnswer(pa: nat, va: nat, pa': nat)
    requires pa' == FrameOf(pa) + va % PGSIZE
    ensures Cached(pa) + va % PGSIZE == pa' % TWO_32
    ensures Cached(pa') == Cached(pa)
  {
    var frame, offset := pa / PGSIZE, va % PGSIZE;
    var high, low := frame / 0x10_0000, frame % 0x10_0000;
    Quotient(FrameOf(pa), TWO_32, high, low * PGSIZE);
    Quotient(pa', TWO_32, high, low * PGSIZE + offset);
    Quotient(pa', PGSIZE, frame, offset);
  }

  ghost function OutcomesOf(c: Control, m: Memory): (nat, Access, Mode) -> Outcome {
    (va: nat, t: Access, mode: Mode) => OutcomeOf(c, m, va, t, mode)
  }

  /** Whether an access that the permissive walk serves is served under `c`. */
  ghost function GrantsOf(c: Control, m: Memory): (nat, Access, Mode) -> bool {
    (va: nat, t: Access, mode: Mode) => OutcomeOf(c, m, va, t, mode).Reaches?
  }

  /** The answer that outcome `o` of a walk asks for: a fault with the code of the access, or the
      address. */
  predicate IsAnswer(r: Result, o: Outcome, va: nat, t: Access) {
    r == match o case Faults => Trap(FaultCode(t), va) case Reaches(pa) => Address(pa)
  }

  /** What an access is answered.  A miss gets the outcome `o` of a walk now.  A hit gets the low
      32 bits of the address of `leaf`, which a walk found when the entry was filled, whether or not
      SUM and MXR still admit it. */
  predicate Answers(r: Result, hit: bool, c: Control, leaf: Found, o: Outcome, va: nat, t: Access, mode: Mode) {
    if hit then
      && leaf.Leaf? && r == Address(leaf.pa % TWO_32)
      && o == (if Denied(c, leaf.pte, t, mode) then Faults else Reaches(leaf.pa))
    else IsAnswer(r, o, va, t)
  }

  /** When the answer is the walk's: on a miss, and on a hit exactly when SUM and MXR admit the leaf
      and it lies below 4 GiB. */
  lemma AnswerIsExact(r: Result, hit: bool, c: Control, leaf: Found, o: Outcome, va: nat, t: Access, mode: Mode)
    requires Answers(r, hit, c, leaf, o, va, t, mode)
    ensures IsAnswer(r, o, va, t) <==> !hit || (!Denied(c, leaf.pte, t, mode) && leaf.pa < TWO_32)
  {
    if hit {
      CutIsExact(leaf.pa);
    }
  }

  lemma CutIsExact(pa: nat)
    ensures pa % TWO_32 == pa <==> pa < TWO_32
  {
  }

  lemma DescendOnce(step: Step, base: nat, i: nat)
    ensures Descend(step, base, i) ==
      match step(base, i)
      case Table(next) => if i == 0 then PageFault else Descend(step, next, i - 1)
      case found => found
  {
  }

  lemma StepsHere(c: Control, m: Memory, va: nat, t: Access, mode: Mode, base: nat, i: nat)
    ensures var a := PteAddr(c.vm, base, va, i);
            Steps(c, m, va, t, mode)(base, i) == Judge(c, LoadPte(c.vm, m, a), a, va, t, mode, i)
  {
  }

  class GenericMmu {
    const tlb: array3<TlbEntry>
    var mem: Memory
    var bare: bool
    var control: Control
    ghost var flushed: Memory            // memory when the TLB was last flushed
    ghost var reach: (nat, Access, Mode) -> Outcome     // what permissive walks of that memory give
    ghost var grants: (nat, Access, Mode) -> bool       // which of them SUM and MXR admit now
    ghost var revoked: bool              // SUM or MXR has been cleared since the flush

    constructor (m: Memory, isBare: bool, c: Control)
      requires RootOk(c)
      ensures Valid() && fresh(tlb) && mem == m && flushed == m && bare == isBare && control == c && !revoked
    {
      tlb := new TlbEntry[2, 3, TLB_ENTRIES]((i, j, k) => TlbEntry(INVALID, INVALID));
      mem := m;
      bare := isBare;
      control := c;
      flushed := m;
      reach := OutcomesOf(Permissive(c), m);
      grants := GrantsOf(c, m);
      revoked := false;
    }

    /** A TLB entry is empty, or holds the frame a permissive walk of its page reaches; while no bit
        has been cleared since the flush, a walk as it is now reaches it too. */
    ghost predicate EntryOk(mode: Mode, t: Access, idx: nat)
      reads this, tlb
      requires tlb.Length0 == 2 && tlb.Length1 == 3 && tlb.Length2 == TLB_ENTRIES && idx < TLB_ENTRIES
    {
      var x := tlb[ModeIndex(mode), AccessIndex(t), idx];
      x.vpn == INVALID ||
      (x.vpn % TLB_ENTRIES == idx &&
       (!revoked ==> grants(x.vpn * PGSIZE, t, mode)) &&
       match reach(x.vpn * PGSIZE, t, mode)
       case Faults => false
       case Reaches(pa) => x.ppn == Cached(pa))
    }

    ghost predicate EntriesOk()
      reads this, tlb
    {
      && tlb.Length0 == 2 && tlb.Length1 == 3 && tlb.Length2 == TLB_ENTRIES
      && (forall mode, t, idx: nat :: idx < TLB_ENTRIES ==> EntryOk(mode, t, idx))
    }

    /** The TLB agrees with the page tables, which walks have not changed in effect since the
        last flush. */
    ghost predicate Valid()
      reads this, tlb
    {
      && EntriesOk()
      && RootOk(control)
      && WalkAlike(control, flushed, mem)
      && reach == OutcomesOf(Permissive(control), flushed) && grants == GrantsOf(control, flushed)
    }

    /** The entry an access looks at. */
    function Slot(va: nat, t: Access, mode: Mode): TlbEntry
      reads this, tlb
      requires tlb.Length0 == 2 && tlb.Length1 == 3 && tlb.Length2 == TLB_ENTRIES
    {
      tlb[ModeIndex(mode), AccessIndex(t), va / PGSIZE % TLB_ENTRIES]
    }

    method FlushTlb()
      requires tlb.Length0 == 2 && tlb.Length1 == 3 && tlb.Length2 == TLB_ENTRIES && RootOk(control)
      modifies this`flushed, this`reach, this`grants, this`revoked, tlb
      ensures Valid() && flushed == mem && !revoked
    {
      forall i, j, k | 0 <= i < 2 && 0 <= j < 3 && 0 <= k < TLB_ENTRIES {
        tlb[i, j, k] := TlbEntry(INVALID, INVALID);
      }
      flushed := mem;
      reach := OutcomesOf(Permissive(control), mem);
      grants := GrantsOf(control, mem);
      revoked := false;
    }

    /** A write of mstatus changes SUM and MXR and leaves the TLB as it is. */
    method WriteStatus(sum: bool, mxr: bool)
      requires Valid()
      modifies this`control, this`grants, this`revoked
      ensures Valid() && control == WithStatus(old(control), sum, mxr)
      ensures revoked <==> old(revoked) || (old(control).sum && !sum) || (old(control).mxr && !mxr)
    {
      revoked := revoked || (control.sum && !sum) || (control.mxr && !mxr);
      ghost var was := control;
      control := WithStatus(control, sum, mxr);
      grants := GrantsOf(control, flushed);
      forall mode, t, i: nat | i < TLB_ENTRIES ensures EntryOk(mode, t, i) {
        assert old(EntryOk(mode, t, i));
        if !revoked {
          GrantingKeeps(was, sum, mxr, flushed, tlb[ModeIndex(mode), AccessIndex(t), i].vpn * PGSIZE, t, mode);
        }
      }
    }

    /** The checks on a leaf entry, in the source's order; a failed one stops the walk. */
    method LeafFaults(pte: nat, a: nat, va: nat, t: Access, mode: Mode, i: nat) returns (fault: bool)
      requires V(pte) && (R(pte) || X(pte)) && !(!R(pte) && W(pte))
      ensures Judge(control, pte, a, va, t, mode, i)
           == if fault then PageFault else Leaf(LeafAddress(control.vm, pte, va, i), a, pte)
      ensures !fault && control.faultOnAD ==> HasAD(pte, t)
    {
      if t == Fetch && !X(pte) {
        return true;
      }
      if t == Load && !R(pte) && !(control.mxr && X(pte)) {
        return true;
      }
      if t == Store && !(R(pte) && W(pte)) {
        return true;
      }
      if U(pte) {
        if mode == Supervisor && (t == Fetch || !control.sum) {
          return true;
        }
      } else if mode != Supervisor {
        return true;
      }
      if Ppn(pte) % PagesAt(control.vm, i) != 0 {
        return true;
      }
      fault := !HasAD(pte, t) && control.faultOnAD;
    }

    /** One level: the entry is loaded and checked. */
    method ReadLevel(base: nat, va: nat, t: Access, mode: Mode, i: nat) returns (found: Found)
      ensures found == Steps(control, mem, va, t, mode)(base, i)
    {
      var a := PteAddr(control.vm, base, va, i);
      var pte := LoadPte(control.vm, mem, a);
      StepsHere(control, mem, va, t, mode, base, i);
      if !V(pte) || (!R(pte) && W(pte)) {
        return PageFault;
      }
      if !R(pte) && !X(pte) {
        return Table(W64(Ppn(pte) * PGSIZE));
      }
      var fault := LeafFaults(pte, a, va, t, mode, i);
      found := if fault then PageFault else Leaf(LeafAddress(control.vm, pte, va, i), a, pte);
    }

    method WriteBack(leaf: Found, t: Access)
      requires leaf.Leaf?
      modifies this`mem
      ensures mem == Written(old(mem), leaf, t)
    {
      if !HasAD(leaf.pte, t) {
        mem := mem[leaf.pteAddr := SetAD(leaf.pte, t) % TWO_32];
      }
    }

    /** The loop over levels with its breaks computes the recursive translation. */
    method Search(va: nat, t: Access, mode: Mode) returns (found: Found)
      ensures found == Translate(control, mem, va, t, mode) && !found.Table?
    {
      var base := control.root;
      var i := if Canonical(control.vm, va) then Levels(control.vm) else 0;
      ghost var step := Steps(control, mem, va, t, mode);
      ghost var result := Translate(control, mem, va, t, mode);
      while i > 0
        invariant result == if i > 0 then Descend(step, base, i - 1) else PageFault
      {
        i := i - 1;
        DescendOnce(step, base, i);
        found := ReadLevel(base, va, t, mode, i);
        match found {
          case PageFault =>
            return;
          case Table(next) =>
            base := next;
          case Leaf(_, _, _) =>
            return;
        }
      }
      found := PageFault;
    }

    /** The page-table walk, with the A and D bits the translation needs written back. */
    method Walk(va: nat, t: Access, mode: Mode) returns (r: Outcome)
      modifies this`mem
      ensures r == OutcomeOf(control, old(mem), va, t, mode)
      ensures mem == AfterTranslate(control, old(mem), va, t, mode)
    {
      var found := Search(va, t, mode);
      if found.Leaf? {
        WriteBack(found, t);
        return Reaches(found.pa);
      }
      r := Faults;
    }

    /** The effective privilege level of an access. */
    function EffectivePrivilege(t: Access, prv: nat, mprv: bool, mpp: nat): nat {
      if t != Fetch && mprv then mpp else prv
    }

    /** A page's permissive walk gives the frame of all its addresses. */
    lemma ReachSamePage(va: nat, va': nat, t: Access, mode: Mode)
      requires Valid() && va / PGSIZE == va' / PGSIZE
      ensures match reach(va, t, mode)
              case Faults => reach(va', t, mode) == Faults
              case Reaches(pa) => reach(va', t, mode) == Reaches(FrameOf(pa) + va' % PGSIZE)
    {
      SamePage(Permissive(control), flushed, va, va', t, mode);
    }

    lemma GrantsSamePage(va: nat, va': nat, t: Access, mode: Mode)
      requires Valid() && va / PGSIZE == va' / PGSIZE
      ensures grants(va, t, mode) == grants(va', t, mode)
    {
      SamePage(control, flushed, va, va', t, mode);
    }

    lemma PageStart(va: nat)
      ensures FrameOf(va) / PGSIZE == va / PGSIZE && FrameOf(va) % PGSIZE == 0
    {
    }

    /** What a refill with the address of `va` puts into its page's entry. */
    lemma FilledEntry(va: nat, t: Access, mode: Mode, pa: nat)
      requires Valid() && reach(va, t, mode) == Reaches(pa) && grants(va, t, mode)
      ensures reach(FrameOf(va), t, mode).Reaches?
      ensures Cached(reach(FrameOf(va), t, mode).pa) == Cached(pa)
      ensures grants(FrameOf(va), t, mode)
    {
      var start := FrameOf(va);
      PageStart(va);
      ReachSamePage(start, va, t, mode);
      GrantsSamePage(start, va, t, mode);
      CachedAnswer(reach(start, t, mode).pa, va, pa);
    }

    /** What a tagged entry says of its page. */
    lemma TaggedEntry(va: nat, t: Access, mode: Mode)
      requires EntriesOk() && va < TWO_64 && Slot(va, t, mode).vpn == va / PGSIZE
      ensures reach(FrameOf(va), t, mode).Reaches?
      ensures Slot(va, t, mode).ppn == Cached(reach(FrameOf(va), t, mode).pa)
      ensures !revoked ==> grants(FrameOf(va), t, mode)
    {
      assert EntryOk(mode, t, va / PGSIZE % TLB_ENTRIES);
    }

    /** A hit: the entry of the page answers what a permissive walk gives, cut to 32 bits. */
    lemma HitAnswer(va: nat, t: Access, mode: Mode)
      requires Valid() && va < TWO_64 && Slot(va, t, mode).vpn == va / PGSIZE
      ensures reach(va, t, mode).Reaches?
      ensures Slot(va, t, mode).ppn + va % PGSIZE == reach(va, t, mode).pa % TWO_32
      ensures !revoked ==> grants(va, t, mode)
    {
      var start := FrameOf(va);
      TaggedEntry(va, t, mode);
      PageStart(va);
      ReachSamePage(start, va, t, mode);
      GrantsSamePage(start, va, t, mode);
      CachedAnswer(reach(start, t, mode).pa, va, reach(va, t, mode).pa);
    }

    /** The walk of a miss; its write-back changes the outcome of no walk. */
    method WalkOnMiss(va: nat, t: Access, mode: Mode) returns (r: Outcome)
      requires Valid()
      modifies this`mem
      ensures Valid() && r == OutcomeOf(control, flushed, va, t, mode)
    {
      ghost var before := mem;
      AlikeOutcome(control, flushed, mem, va, t, mode);
      r := Walk(va, t, mode);
      WalkedAlike(control, before, va, t, mode);
      WalkAlikeTwice(control, flushed, before, mem);
      assert forall mode', t', i: nat :: i < TLB_ENTRIES ==> old(EntryOk(mode', t', i)) ==> EntryOk(mode', t', i);
    }

    /** Enters the page of a translated address. */
    method Fill(va: nat, t: Access, mode: Mode, pa: nat)
      requires Valid() && va < TWO_64 && reach(va, t, mode) == Reaches(pa) && grants(va, t, mode)
      modifies tlb
      ensures Valid() && Slot(va, t, mode).vpn == va / PGSIZE
    {
      FilledEntry(va, t, mode, pa);
      Enter(mode, t, TlbEntry(Cached(pa), va / PGSIZE));
    }

    method Enter(mode: Mode, t: Access, x: TlbEntry)
      requires EntriesOk()
      requires reach(x.vpn * PGSIZE, t, mode).Reaches? && grants(x.vpn * PGSIZE, t, mode)
      requires Cached(reach(x.vpn * PGSIZE, t, mode).pa) == x.ppn
      modifies tlb
      ensures EntriesOk() && tlb[ModeIndex(mode), AccessIndex(t), x.vpn % TLB_ENTRIES] == x
    {
      var idx := x.vpn % TLB_ENTRIES;
      tlb[ModeIndex(mode), AccessIndex(t), idx] := x;
      forall mode', t', i: nat | i < TLB_ENTRIES ensures EntryOk(mode', t', i) {
        assert old(EntryOk(mode', t', i));
      }
    }

    /** What the answers are compared with: a walk of memory as it was at the flush is one of memory
        as it is now, whatever SUM and MXR are. */
    lemma ReachIsTheWalk(va: nat, t: Access, mode: Mode, sum: bool, mxr: bool)
      requires Valid()
      ensures var c := WithStatus(control, sum, mxr);
              OutcomeOf(c, flushed, va, t, mode) == OutcomeOf(c, mem, va, t, mode)
    {
      AlikeOutcome(WithStatus(control, sum, mxr), flushed, mem, va, t, mode);
    }

    /** The leaf the permissive walk finds, and the outcome of a walk as the registers are now. */
    lemma ReachAndGrants(va: nat, t: Access, mode: Mode)
      requires Valid()
      ensures var leaf := Translate(Permissive(control), flushed, va, t, mode);
        && reach(va, t, mode) == (if leaf.Leaf? then Reaches(leaf.pa) else Faults)
        && OutcomeOf(control, flushed, va, t, mode)
           == (if leaf.Leaf? && !Denied(control, leaf.pte, t, mode) then Reaches(leaf.pa) else Faults)
        && (grants(va, t, mode) <==> leaf.Leaf? && !Denied(control, leaf.pte, t, mode))
    {
      StatusOutcome(control, flushed, va, t, mode);
    }

    /** The lookup, and the walk and refill of a miss. */
    method LookUp(va: nat, t: Access, mode: Mode) returns (r: Result, ghost hit: bool)
      requires Valid() && va < TWO_64
      modifies this`mem, tlb
      ensures Valid()
      ensures hit <==> old(Slot(va, t, mode)).vpn == va / PGSIZE
      ensures Answers(r, hit, control, Translate(Permissive(control), flushed, va, t, mode),
                      OutcomeOf(control, flushed, va, t, mode), va, t, mode)
      ensures hit && !revoked ==> !Denied(control, Translate(Permissive(control), flushed, va, t, mode).pte, t, mode)
      ensures r.Address? ==> Slot(va, t, mode).vpn == va / PGSIZE
    {
      ReachAndGrants(va, t, mode);
      var vpn := va / PGSIZE;
      var x := tlb[ModeIndex(mode), AccessIndex(t), vpn % TLB_ENTRIES];
      if x.vpn == vpn {
        HitAnswer(va, t, mode);
        return Address(x.ppn + va % PGSIZE), true;
      }
      hit := false;
      var walked := WalkOnMiss(va, t, mode);
      match walked
      case Faults =>
        r := Trap(FaultCode(t), va);
      case Reaches(pa) =>
        Fill(va, t, mode, pa);
        r := Address(pa);
    }

    /** Coherence, over any translations and any writes of SUM and MXR since a flush, while satp
        stays and software does not write the page tables.  A hit is an access whose page the
        indexed entry is tagged with.  The answer is that of a walk of the page tables as they were
        at the flush, under the registers as they are now, exactly when it is a miss, or when SUM
        and MXR admit the leaf and it lies below 4 GiB.  They admit it as long as no bit has been
        cleared since the flush. */
    method TranslateVirtualToPhysicalAddr(va: nat, t: Access, prv: nat, mprv: bool, mpp: nat)
        returns (r: Result, ghost hit: bool)
      requires Valid() && va < TWO_64
      requires bare || EffectivePrivilege(t, prv, mprv, mpp) in {USER, SUPERVISOR, MACHINE}
      modifies this`mem, tlb
      ensures Valid()
      ensures bare || EffectivePrivilege(t, prv, mprv, mpp) == MACHINE ==> r == Address(va) && mem == old(mem) && !hit
      ensures EffectivePrivilege(t, prv, mprv, mpp) == (if mprv && (t == Load || t == Store) then mpp else prv)
      ensures !bare && EffectivePrivilege(t, prv, mprv, mpp) != MACHINE ==>
        var mode := ModeOf(EffectivePrivilege(t, prv, mprv, mpp));
        var leaf := Translate(Permissive(control), flushed, va, t, mode);
        var walk := OutcomeOf(control, flushed, va, t, mode);
        && (hit <==> old(Slot(va, t, mode)).vpn == va / PGSIZE)
        && Answers(r, hit, control, leaf, walk, va, t, mode)
        && (IsAnswer(r, walk, va, t) <==> !hit || (!Denied(control, leaf.pte, t, mode) && leaf.pa < TWO_32))
        && (hit && !revoked ==> !Denied(control, leaf.pte, t, mode))
        && (r.Address? ==> Slot(va, t, mode).vpn == va / PGSIZE)
    {
      hit := false;
      if bare {
        return Address(va), false;
      }
      var effective := EffectivePrivilege(t, prv, mprv, mpp);
      if effective == MACHINE {
        return Address(va), false;
      }
      var mode := ModeOf(effective);
      r, hit := LookUp(va, t, mode);
      AnswerIsExact(r, hit, control, Translate(Permissive(control), flushed, va, t, mode),
                    OutcomeOf(control, flushed, va, t, mode), va, t, mode);
    }
  }

  /** The conditions are needed: a change of SUM alone changes what a walk reaches, and nothing
      flushes the TLB then. */
  lemma SumChangeMatters()
    ensures
      var m: Memory := map[0 := 83];             // a superpage at 0: valid, readable, user, accessed
      && OutcomeOf(Control(Sv32, 0, true, false, false), m, 0, Load, Supervisor) == Reaches(0)
      && OutcomeOf(Control(Sv32, 0, false, false, false), m, 0, Load, Supervisor) == Faults
  {
    var m: Memory := map[0 := 83];
    var c, c' := Control(Sv32, 0, true, false, false), Control(Sv32, 0, false, false, false);
    assert PteAddr(Sv32, 0, 0, 1) == 0;
    assert Steps(c, m, 0, Load, Supervisor)(0, 1) == Leaf(0, 0, 83);
    assert Steps(c', m, 0, Load, Supervisor)(0, 1) == PageFault;
  }

  /** So a hit goes on answering after SUM was cleared, where a walk faults. */
  method StaleAnswer() returns (before: Result, after: Result)
    ensures before == after == Address(0)
    ensures OutcomeOf(Control(Sv32, 0, false, false, false), map[0 := 83], 0, Load, Supervisor) == Faults
  {
    var m: Memory := map[0 := 83];
    var c := Control(Sv32, 0, true, false, false);
    SumChangeMatters();
    StatusOutcome(c, m, 0, Load, Supervisor);
    var mmu := new GenericMmu(m, false, c);
    ghost var hit;
    before, hit := mmu.TranslateVirtualToPhysicalAddr(0, Load, SUPERVISOR, false, USER);
    mmu.WriteStatus(false, false);
    after, hit := mmu.TranslateVirtualToPhysicalAddr(0, Load, SUPERVISOR, false, USER);
  }

  /** The 4 GiB bound is needed: a Sv32 page can lie above it, and a hit then answers below. */
  lemma HighPageIsCut()
    ensures
      var m: Memory := map[0 := 0x4000_0053];    // the same superpage, at physical 4 GiB
      var c := Control(Sv32, 0, false, false, false);
      OutcomeOf(c, m, 0, Load, User) == Reaches(TWO_32) && Cached(TWO_32) == 0
  {
    var m: Memory := map[0 := 0x4000_0053];
    var c := Control(Sv32, 0, false, false, false);
    assert PteAddr(Sv32, 0, 0, 1) == 0;
    assert Steps(c, m, 0, Load, User)(0, 1) == Leaf(TWO_32, 0, 0x4000_0053);
  }
}
