/** What the SUM and MXR bits of mstatus do to a walk: they decide about the leaf it finds, and
    about nothing else. */
module MmuStatus {
  import opened MemoryAccess
  import opened MmuSpec

  function WithStatus(c: Control, sum: bool, mxr: bool): Control {
    c.(sum := sum, mxr := mxr)
  }

  function Permissive(c: Control): Control { WithStatus(c, true, true) }

  /** What the two bits forbid of a leaf that would otherwise serve: a supervisor's data access to a
      user page without SUM, and a load from an execute-only page without MXR. */
  predicate Denied(c: Control, pte: nat, t: Access, mode: Mode) {
    || (mode == Supervisor && t != Fetch && U(pte) && !c.sum)
    || (t == Load && !R(pte) && !c.mxr)
  }

  /** The access rules of a leaf, rule by rule: its type needs the permission bit (a load may use the
      execute bit under MXR, a store needs the read bit too), user mode needs a user page, and
      supervisor mode may use a user page for data under SUM only. */
  lemma PermitsByRule(c: Control, pte: nat, t: Access, mode: Mode)
    ensures Permits(c, pte, t, mode) <==>
      && (t == Fetch ==> X(pte)) && (t == Store ==> R(pte) && W(pte))
      && (t == Load && !R(pte) ==> X(pte) && c.mxr)
      && (mode == User ==> U(pte))
      && (mode == Supervisor && U(pte) ==> t != Fetch && c.sum)
  {
  }

  /** A walk under `c` finds the leaf the permissive walk finds, or refuses it. */
  predicate Restricts(c: Control, t: Access, mode: Mode, f: Found, permissive: Found) {
    f == if permissive.Leaf? && Denied(c, permissive.pte, t, mode) then PageFault else permissive
  }

  lemma JudgeRestricts(c: Control, pte: nat, a: nat, va: nat, t: Access, mode: Mode, i: nat)
    ensures Restricts(c, t, mode, Judge(c, pte, a, va, t, mode, i), Judge(Permissive(c), pte, a, va, t, mode, i))
  {
  }

  lemma WalkRestricts(c: Control, m: Memory, va: nat, t: Access, mode: Mode)
    requires RootOk(c)
    ensures Restricts(c, t, mode, Translate(c, m, va, t, mode), Translate(Permissive(c), m, va, t, mode))
  {
    var f, g := Steps(c, m, va, t, mode), Steps(Permissive(c), m, va, t, mode);
    var rel := (x: Found, y: Found) => Restricts(c, t, mode, x, y);
    forall b: nat, j: nat | b % PGSIZE == 0
      ensures rel(f(b, j), g(b, j)) && f(b, j).Table? == g(b, j).Table?
      ensures f(b, j).Table? ==> f(b, j) == g(b, j) && f(b, j).base % PGSIZE == 0
    {
      var a := PteAddr(c.vm, b, va, j);
      JudgeRestricts(c, LoadPte(c.vm, m, a), a, va, t, mode, j);
      TableAligned(c, LoadPte(c.vm, m, a), a, va, t, mode, j);
    }
    assert StepsRelated(f, g, rel);
    DescendRelated(f, g, rel, c.root, Levels(c.vm) - 1);
  }

  /** The outcome under any SUM and MXR, from the leaf that the permissive walk finds. */
  lemma StatusOutcome(c: Control, m: Memory, va: nat, t: Access, mode: Mode)
    requires RootOk(c)
    ensures var leaf := Translate(Permissive(c), m, va, t, mode);
      OutcomeOf(c, m, va, t, mode) ==
        if leaf.Leaf? && !Denied(c, leaf.pte, t, mode) then Reaches(leaf.pa) else Faults
    ensures var leaf := Translate(Permissive(c), m, va, t, mode);
      OutcomeOf(Permissive(c), m, va, t, mode) == if leaf.Leaf? then Reaches(leaf.pa) else Faults
  {
    WalkRestricts(c, m, va, t, mode);
  }

  /** When a change of SUM and MXR changes what a walk gives: exactly when the walk finds a leaf
      that one setting forbids and the other does not. */
  lemma StatusChangeMatters(c: Control, sum: bool, mxr: bool, m: Memory, va: nat, t: Access, mode: Mode)
    requires RootOk(c)
    ensures
      var c', leaf := WithStatus(c, sum, mxr), Translate(Permissive(c), m, va, t, mode);
      OutcomeOf(c', m, va, t, mode) == OutcomeOf(c, m, va, t, mode)
      <==> (leaf.Leaf? ==> (Denied(c', leaf.pte, t, mode) <==> Denied(c, leaf.pte, t, mode)))
  {
    StatusOutcome(c, m, va, t, mode);
    StatusOutcome(WithStatus(c, sum, mxr), m, va, t, mode);
  }

  /** For an address that translates now: a new SUM alone changes the outcome exactly for a
      supervisor's data access to a user page while SUM is being cleared, a new MXR alone exactly
      for a load from an execute-only page while MXR is being cleared. */
  lemma ClearingMatters(c: Control, sum: bool, mxr: bool, m: Memory, va: nat, t: Access, mode: Mode)
    requires RootOk(c) && Translate(c, m, va, t, mode).Leaf?
    ensures
      var pte := Translate(c, m, va, t, mode).pte;
      && (OutcomeOf(WithStatus(c, sum, c.mxr), m, va, t, mode) == OutcomeOf(c, m, va, t, mode)
          <==> !(mode == Supervisor && t != Fetch && U(pte) && c.sum && !sum))
      && (OutcomeOf(WithStatus(c, c.sum, mxr), m, va, t, mode) == OutcomeOf(c, m, va, t, mode)
          <==> !(t == Load && !R(pte) && c.mxr && !mxr))
  {
    WalkRestricts(c, m, va, t, mode);
    StatusChangeMatters(c, sum, c.mxr, m, va, t, mode);
    StatusChangeMatters(c, c.sum, mxr, m, va, t, mode);
  }

  /** Setting bits refuses no leaf. */
  lemma GrantingKeeps(c: Control, sum: bool, mxr: bool, m: Memory, va: nat, t: Access, mode: Mode)
    requires RootOk(c) && (c.sum ==> sum) && (c.mxr ==> mxr)
    ensures OutcomeOf(c, m, va, t, mode).Reaches? ==>
              OutcomeOf(WithStatus(c, sum, mxr), m, va, t, mode) == OutcomeOf(c, m, va, t, mode)
  {
    StatusOutcome(c, m, va, t, mode);
    StatusOutcome(WithStatus(c, sum, mxr), m, va, t, mode);
  }

  // ---------------------------------------------------------------- memories that walk alike

  ghost predicate WalkAlike(c: Control, m: Memory, m': Memory) {
    if c.faultOnAD then m == m' else MemoriesSameButAD(c.vm, m, m')
  }

  lemma WalkAlikeTwice(c: Control, m: Memory, m': Memory, m'': Memory)
    requires WalkAlike(c, m, m') && WalkAlike(c, m', m'')
    ensures WalkAlike(c, m, m'')
  {
    if !c.faultOnAD {
      forall a: nat ensures SameButAD(Word(m, a), Word(m'', a))
                            && (a % PteSize(c.vm) != 0 ==> Word(m, a) == Word(m'', a)) {
        assert SameButAD(Word(m, a), Word(m', a)) && SameButAD(Word(m', a), Word(m'', a));
      }
    }
  }

  lemma WalkedAlike(c: Control, m: Memory, va: nat, t: Access, mode: Mode)
    requires RootOk(c)
    ensures WalkAlike(c, m, AfterTranslate(c, m, va, t, mode))
  {
    WriteBackOnlyAD(c, m, va, t, mode);
  }

  lemma AlikeOutcome(c: Control, m: Memory, m': Memory, va: nat, t: Access, mode: Mode)
    requires RootOk(c) && WalkAlike(c, m, m')
    ensures OutcomeOf(c, m, va, t, mode) == OutcomeOf(c, m', va, t, mode)
  {
    if !c.faultOnAD {
      WalkIgnoresAD(c, m, m', va, t, mode);
    }
  }
}
