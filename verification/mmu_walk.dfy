/** Address translation by page-table walk: the recursive algorithm of section 4.3.2 of the RISC-V
    Privileged Architecture, and what it depends on.

    A machine word is its value; shifts and masks are written as divisions and remainders by
    powers of two, and 64-bit wrap-around explicitly.  Physical memory is a map of aligned 32-bit
    words; a word that was never written reads zero. */
module MmuSpec {
  import opened Division
  import opened MemoryAccess

  const TWO_32: nat := 0x1_0000_0000
  const TWO_64: nat := 0x1_0000_0000_0000_0000
  const PGSIZE: nat := 4096

  /** The start of the page an address lies in. */
  function FrameOf(a: nat): nat { a / PGSIZE * PGSIZE }

  type u32 = x: nat | x < 0x1_0000_0000

  function W64(x: nat): nat { x % TWO_64 }

  /** The privilege levels that are translated. */
  datatype Mode = User | Supervisor

  datatype Vm = Sv32 | Sv39 | Sv48 | Sv57

  function Levels(vm: Vm): nat {
    match vm case Sv32 => 2 case Sv39 => 3 case Sv48 => 4 case Sv57 => 5
  }

  function IdxSize(vm: Vm): nat { if vm == Sv32 then 1024 else 512 }

  function PteSize(vm: Vm): nat { if vm == Sv32 then 4 else 8 }

  /** How many pages a leaf of level `i` maps. */
  function PagesAt(vm: Vm, i: nat): (n: nat)
    ensures n > 0
  {
    if i == 0 then 1 else if vm == Sv32 then 1024
    else if i == 1 then 512 else if i == 2 then 0x4_0000 else if i == 3 then 0x800_0000 else 0x10_0000_0000
  }

  type Memory = map<nat, u32>

  function Word(m: Memory, a: nat): u32 { if a in m then m[a] else 0 }

  /** A page-table entry: 4 bytes in Sv32, else 8. */
  function LoadPte(vm: Vm, m: Memory, a: nat): nat {
    if vm == Sv32 then Word(m, a) else Word(m, a) + TWO_32 * Word(m, a + 4)
  }

  /** Where the entry of level `i` lies: the field of `va` times the entry size above `base`. */
  function PteAddr(vm: Vm, base: nat, va: nat, i: nat): nat {
    W64(base + va / PGSIZE / PagesAt(vm, i) % IdxSize(vm) * PteSize(vm))
  }

  predicate V(pte: nat) { pte % 2 == 1 }
  predicate R(pte: nat) { pte / 2 % 2 == 1 }
  predicate W(pte: nat) { pte / 4 % 2 == 1 }
  predicate X(pte: nat) { pte / 8 % 2 == 1 }
  predicate U(pte: nat) { pte / 16 % 2 == 1 }
  predicate A(pte: nat) { pte / 64 % 2 == 1 }
  predicate D(pte: nat) { pte / 128 % 2 == 1 }

  function Ppn(pte: nat): nat { pte / 1024 }

  /** Has the entry the accessed bit, and for a store the dirty bit? */
  predicate HasAD(pte: nat, t: Access) { A(pte) && (t == Store ==> D(pte)) }

  function SetAD(pte: nat, t: Access): nat {
    pte + (if A(pte) then 0 else 64) + (if t == Store && !D(pte) then 128 else 0)
  }

  /** What a walk reads besides memory: the translation scheme, the root table, the two bits of
      mstatus, and whether a missing A or D bit is left to software. */
  datatype Control = Control(vm: Vm, root: nat, sum: bool, mxr: bool, faultOnAD: bool)

  /** May a leaf entry serve this access? */
  predicate Permits(c: Control, pte: nat, t: Access, mode: Mode) {
    && (match t
        case Fetch => X(pte)
        case Load => R(pte) || (c.mxr && X(pte))
        case Store => R(pte) && W(pte))
    && (if U(pte) then mode == User || (t != Fetch && c.sum) else mode == Supervisor)
  }

  /** What one level of the walk yields: a fault, the table of the level below, or the leaf found
      with the physical address, the entry and where it lies. */
  datatype Found = PageFault | Table(base: nat) | Leaf(pa: nat, pteAddr: nat, pte: nat)

  /** The page number of the leaf, its low fields taken from the virtual address, and the offset. */
  function LeafAddress(vm: Vm, pte: nat, va: nat, i: nat): nat {
    var n := PagesAt(vm, i);
    W64((Ppn(pte) / n * n + va / PGSIZE % n) * PGSIZE) + va % PGSIZE
  }

  /** What an entry says, at address `a` and level `i`. */
  function Judge(c: Control, pte: nat, a: nat, va: nat, t: Access, mode: Mode, i: nat): Found {
    if !V(pte) || (!R(pte) && W(pte)) then PageFault
    else if !R(pte) && !X(pte) then Table(W64(Ppn(pte) * PGSIZE))
    else if !Permits(c, pte, t, mode) then PageFault
    else if Ppn(pte) % PagesAt(c.vm, i) != 0 then PageFault                // misaligned superpage
    else if c.faultOnAD && !HasAD(pte, t) then PageFault
    else Leaf(LeafAddress(c.vm, pte, va, i), a, pte)
  }

  function StepAt(c: Control, m: Memory, va: nat, t: Access, mode: Mode, base: nat, i: nat): Found {
    var a := PteAddr(c.vm, base, va, i);
    Judge(c, LoadPte(c.vm, m, a), a, va, t, mode, i)
  }

  type Step = (nat, nat) -> Found

  function Steps(c: Control, m: Memory, va: nat, t: Access, mode: Mode): Step {
    (base: nat, i: nat) => StepAt(c, m, va, t, mode, base, i)
  }

  /** The recursion over levels: a pointer below the last level is a fault. */
  function Descend(step: Step, base: nat, i: nat): Found
    decreases i
  {
    match step(base, i)
    case Table(next) => if i == 0 then PageFault else Descend(step, next, i - 1)
    case found => found
  }

  /** The virtual address extension check: the bits from the highest translated one up agree. */
  predicate Canonical(vm: Vm, va: nat) {
    match vm
    case Sv32 => true
    case Sv39 => va / 0x40_0000_0000 in {0, 0x3FF_FFFF}
    case Sv48 => va / 0x8000_0000_0000 in {0, 0x1_FFFF}
    case Sv57 => va / 0x100_0000_0000_0000 in {0, 0xFF}
  }

  /** The whole translation. */
  function Translate(c: Control, m: Memory, va: nat, t: Access, mode: Mode): Found {
    if Canonical(c.vm, va) then Descend(Steps(c, m, va, t, mode), c.root, Levels(c.vm) - 1)
    else PageFault
  }

  /** Memory after the translation: the missing A and D bits of the leaf are set. */
  function AfterTranslate(c: Control, m: Memory, va: nat, t: Access, mode: Mode): Memory {
    Written(m, Translate(c, m, va, t, mode), t)
  }

  function Written(m: Memory, f: Found, t: Access): Memory {
    if f.Leaf? && !HasAD(f.pte, t) then m[f.pteAddr := SetAD(f.pte, t) % TWO_32] else m
  }

  /** The part of the outcome a program sees: a fault, or the physical address. */
  datatype Outcome = Faults | Reaches(pa: nat)

  function OutcomeOf(c: Control, m: Memory, va: nat, t: Access, mode: Mode): Outcome {
    match Translate(c, m, va, t, mode) case Leaf(pa, _, _) => Reaches(pa) case _ => Faults
  }

  // ---------------------------------------------------------------- descents, level by level

  /** Two ways of stepping that reach the same aligned tables and are otherwise related. */
  ghost predicate StepsRelated(f: Step, g: Step, rel: (Found, Found) -> bool) {
    rel(PageFault, PageFault) &&
    forall b: nat, j: nat :: b % PGSIZE == 0 ==>
      && rel(f(b, j), g(b, j))
      && f(b, j).Table? == g(b, j).Table?
      && (f(b, j).Table? ==> f(b, j) == g(b, j) && f(b, j).base % PGSIZE == 0)
  }

  lemma {:induction false} DescendRelated(f: Step, g: Step, rel: (Found, Found) -> bool, base: nat, i: nat)
    requires StepsRelated(f, g, rel) && base % PGSIZE == 0
    ensures rel(Descend(f, base, i), Descend(g, base, i))
    decreases i
  {
    if f(base, i).Table? && i > 0 {
      DescendRelated(f, g, rel, f(base, i).base, i - 1);
    }
  }

  predicate RootOk(c: Control) { c.root % PGSIZE == 0 }

  /** Wrapping keeps a multiple of a page or of an entry a multiple. */
  lemma WrapKeepsMultiple(k: nat)
    ensures W64(4 * k) % 4 == 0 && W64(8 * k) % 8 == 0 && W64(k * PGSIZE) % PGSIZE == 0
  {
    Wrapped(4, 0x4000_0000_0000_0000, k);
    Wrapped(8, 0x2000_0000_0000_0000, k);
    Wrapped(PGSIZE, 0x10_0000_0000_0000, k);
  }

  lemma Wrapped(size: nat, count: nat, k: nat)
    requires size > 0 && count > 0 && size * count == TWO_64
    ensures W64(size * k) % size == 0
  {
    var turns, rest := k / count, k % count;
    assert k == count * turns + rest;
    assert size * k == size * count * turns + size * rest;
    assert size * rest < size * count by { AtLeast(size, count - rest); }
    Quotient(size * k, TWO_64, turns, size * rest);
    Quotient(size * rest, size, rest, 0);
  }

  lemma PagesOf(n: nat, q: nat)
    ensures PGSIZE * n * q == PGSIZE * (n * q)
  {
  }

  /** Dividing by the page size first. */
  lemma PagesFirst(x: nat, n: nat)
    requires n > 0
    ensures x / (PGSIZE * n) == x / PGSIZE / n
  {
    var pages, offset := x / PGSIZE, x % PGSIZE;
    var q, r := pages / n, pages % n;
    assert pages == n * q + r;
    PagesOf(n, q);
    Quotient(x, PGSIZE * n, q, PGSIZE * r + offset);
  }

  lemma TableAligned(c: Control, pte: nat, a: nat, va: nat, t: Access, mode: Mode, i: nat)
    ensures var f := Judge(c, pte, a, va, t, mode, i); f.Table? ==> f.base % PGSIZE == 0
  {
    WrapKeepsMultiple(Ppn(pte));
  }

  /** Entries are aligned to their size, so entries never overlap in part. */
  lemma PteAligned(vm: Vm, base: nat, va: nat, i: nat)
    requires base % PGSIZE == 0
    ensures PteAddr(vm, base, va, i) % PteSize(vm) == 0
  {
    var field := va / PGSIZE / PagesAt(vm, i) % IdxSize(vm);
    var page := base / PGSIZE;
    assert base == PGSIZE * page;
    if vm == Sv32 {
      assert base + field * 4 == 4 * (1024 * page + field);
      WrapKeepsMultiple(1024 * page + field);
    } else {
      assert base + field * 8 == 8 * (512 * page + field);
      WrapKeepsMultiple(512 * page + field);
    }
  }

  // ---------------------------------------------------------------- accessed and dirty bits

  /** Equal but for bits 6 and 7. */
  predicate SameButAD(p: nat, q: nat) { p / 256 == q / 256 && p % 64 == q % 64 }

  /** Two memories that differ at most in the A and D bits of entries. */
  ghost predicate MemoriesSameButAD(vm: Vm, m: Memory, m': Memory) {
    forall a: nat {:trigger Word(m, a)} {:trigger Word(m', a)} ::
      SameButAD(Word(m, a), Word(m', a)) && (a % PteSize(vm) != 0 ==> Word(m, a) == Word(m', a))
  }

  lemma LowPart(low: nat, high: nat)
    ensures (low + TWO_32 * high) / 256 == low / 256 + 0x100_0000 * high
    ensures (low + TWO_32 * high) % 64 == low % 64
  {
    Quotient(low + TWO_32 * high, 256, low / 256 + 0x100_0000 * high, low % 256);
    Quotient(low + TWO_32 * high, 64, low / 64 + 0x400_0000 * high, low % 64);
  }

  lemma SameEntry(vm: Vm, m: Memory, m': Memory, a: nat)
    requires MemoriesSameButAD(vm, m, m') && a % PteSize(vm) == 0
    ensures SameButAD(LoadPte(vm, m, a), LoadPte(vm, m', a))
  {
    assert SameButAD(Word(m, a), Word(m', a));
    if vm != Sv32 {
      var high := Word(m, a + 4);
      assert (a + 4) % 8 == 4;
      assert Word(m', a + 4) == high;
      LowPart(Word(m, a), high);
      LowPart(Word(m', a), high);
    }
  }

  /** Up to the entry itself, whose A and D bits may differ. */
  predicate SameTarget(f: Found, g: Found) {
    match (f, g)
    case (PageFault, PageFault) => true
    case (Table(b), Table(b')) => b == b'
    case (Leaf(pa, a, _), Leaf(pa', a', _)) => pa == pa' && a == a'
    case _ => false
  }

  /** The tested flags and the page number, from the parts of an entry around bits 6 and 7. */
  lemma FlagsAroundAD(p: nat)
    ensures V(p) == V(p % 64) && R(p) == R(p % 64) && W(p) == W(p % 64) && X(p) == X(p % 64) && U(p) == U(p % 64)
    ensures Ppn(p) == p / 256 / 4
  {
    var q, r := p / 64, p % 64;
    Quotient(p, 2, 32 * q + r / 2, r % 2);
    FlagAround(p, 2, 16, q, r);
    FlagAround(p, 4, 8, q, r);
    FlagAround(p, 8, 4, q, r);
    FlagAround(p, 16, 2, q, r);
    Quotient(p, 1024, p / 256 / 4, p / 256 % 4 * 256 + p % 256);
  }

  /** The bit of weight `k` below bit 6 is that of the remainder by 64 == 2 * k * n. */
  lemma FlagAround(p: nat, k: nat, n: nat, q: nat, r: nat)
    requires p == 64 * q + r && r < 64
    requires (k == 2 && n == 16) || (k == 4 && n == 8) || (k == 8 && n == 4) || (k == 16 && n == 2)
    ensures p / k % 2 == r / k % 2
  {
    if k == 2 { Quotient(p, 2, 32 * q + r / 2, r % 2); Quotient(p / 2, 2, 16 * q + r / 2 / 2, r / 2 % 2); }
    else if k == 4 { Quotient(p, 4, 16 * q + r / 4, r % 4); Quotient(p / 4, 2, 8 * q + r / 4 / 2, r / 4 % 2); }
    else if k == 8 { Quotient(p, 8, 8 * q + r / 8, r % 8); Quotient(p / 8, 2, 4 * q + r / 8 / 2, r / 8 % 2); }
    else { Quotient(p, 16, 4 * q + r / 16, r % 16); Quotient(p / 16, 2, 2 * q + r / 16 / 2, r / 16 % 2); }
  }

  /** The tests on an entry and its page number do not involve the A and D bits. */
  lemma JudgeIgnoresAD(c: Control, p: nat, q: nat, a: nat, va: nat, t: Access, mode: Mode, i: nat)
    requires SameButAD(p, q) && !c.faultOnAD
    ensures SameTarget(Judge(c, p, a, va, t, mode, i), Judge(c, q, a, va, t, mode, i))
  {
    FlagsAroundAD(p);
    FlagsAroundAD(q);
    JudgeByFlags(c, p, q, a, va, t, mode, i);
  }

  lemma JudgeByFlags(c: Control, p: nat, q: nat, a: nat, va: nat, t: Access, mode: Mode, i: nat)
    requires V(p) == V(q) && R(p) == R(q) && W(p) == W(q) && X(p) == X(q) && U(p) == U(q) && Ppn(p) == Ppn(q)
    requires !c.faultOnAD
    ensures SameTarget(Judge(c, p, a, va, t, mode, i), Judge(c, q, a, va, t, mode, i))
  {
    assert Permits(c, p, t, mode) == Permits(c, q, t, mode);
    assert LeafAddress(c.vm, p, va, i) == LeafAddress(c.vm, q, va, i);
  }

  lemma StepsIgnoreAD(c: Control, m: Memory, m': Memory, va: nat, t: Access, mode: Mode)
    requires !c.faultOnAD && MemoriesSameButAD(c.vm, m, m')
    ensures StepsRelated(Steps(c, m, va, t, mode), Steps(c, m', va, t, mode), SameTarget)
  {
    var f, g := Steps(c, m, va, t, mode), Steps(c, m', va, t, mode);
    forall b: nat, j: nat | b % PGSIZE == 0
      ensures SameTarget(f(b, j), g(b, j)) && (f(b, j).Table? ==> f(b, j).base % PGSIZE == 0)
    {
      var a := PteAddr(c.vm, b, va, j);
      PteAligned(c.vm, b, va, j);
      SameEntry(c.vm, m, m', a);
      JudgeIgnoresAD(c, LoadPte(c.vm, m, a), LoadPte(c.vm, m', a), a, va, t, mode, j);
      TableAligned(c, LoadPte(c.vm, m, a), a, va, t, mode, j);
    }
  }

  /** A and D bits do not change what a walk reaches. */
  lemma WalkIgnoresAD(c: Control, m: Memory, m': Memory, va: nat, t: Access, mode: Mode)
    requires RootOk(c) && !c.faultOnAD && MemoriesSameButAD(c.vm, m, m')
    ensures OutcomeOf(c, m, va, t, mode) == OutcomeOf(c, m', va, t, mode)
  {
    StepsIgnoreAD(c, m, m', va, t, mode);
    DescendRelated(Steps(c, m, va, t, mode), Steps(c, m', va, t, mode), SameTarget, c.root, Levels(c.vm) - 1);
  }

  /** A leaf is the aligned entry it says it is. */
  predicate IsEntry(c: Control, m: Memory, t: Access, f: Found) {
    f.Leaf? ==> f.pte == LoadPte(c.vm, m, f.pteAddr) && f.pteAddr % PteSize(c.vm) == 0
                && (c.faultOnAD ==> HasAD(f.pte, t))
  }

  lemma WalkFindsEntry(c: Control, m: Memory, va: nat, t: Access, mode: Mode)
    requires RootOk(c)
    ensures IsEntry(c, m, t, Translate(c, m, va, t, mode))
  {
    var f := Steps(c, m, va, t, mode);
    var rel := (x: Found, y: Found) => IsEntry(c, m, t, x);
    forall b: nat, j: nat | b % PGSIZE == 0
      ensures rel(f(b, j), f(b, j)) && (f(b, j).Table? ==> f(b, j).base % PGSIZE == 0)
    {
      var a := PteAddr(c.vm, b, va, j);
      PteAligned(c.vm, b, va, j);
      TableAligned(c, LoadPte(c.vm, m, a), a, va, t, mode, j);
    }
    assert StepsRelated(f, f, rel);
    DescendRelated(f, f, rel, c.root, Levels(c.vm) - 1);
  }

  /** An entry from the parts around its A and D bits. */
  function Entry(rest: nat, d: nat, a: nat, low: nat): nat { 256 * rest + 128 * d + 64 * a + low }

  lemma EntryParts(rest: nat, d: nat, a: nat, low: nat)
    requires d < 2 && a < 2 && low < 64
    ensures Entry(rest, d, a, low) / 256 == rest && Entry(rest, d, a, low) % 64 == low
    ensures A(Entry(rest, d, a, low)) == (a == 1) && D(Entry(rest, d, a, low)) == (d == 1)
  {
    var p := Entry(rest, d, a, low);
    Quotient(p, 256, rest, 128 * d + 64 * a + low);
    Quotient(p, 64, 4 * rest + 2 * d + a, low);
    Quotient(p / 64, 2, 2 * rest + d, a);
    Quotient(p, 128, 2 * rest + d, 64 * a + low);
    Quotient(p / 128, 2, rest, d);
  }

  /** The low six bits, put together from `v` up. */
  lemma LowFlags(v: nat, r: nat, w: nat, x: nat, u: nat, g: nat) returns (low: nat)
    requires v < 2 && r < 2 && w < 2 && x < 2 && u < 2 && g < 2
    ensures low == v + 2 * r + 4 * w + 8 * x + 16 * u + 32 * g && low < 64
    ensures V(low) == (v == 1) && R(low) == (r == 1) && W(low) == (w == 1) && X(low) == (x == 1) && U(low) == (u == 1)
  {
    low := v + 2 * r + 4 * w + 8 * x + 16 * u + 32 * g;
    Quotient(low, 2, r + 2 * w + 4 * x + 8 * u + 16 * g, v);
    Quotient(r + 2 * w + 4 * x + 8 * u + 16 * g, 2, w + 2 * x + 4 * u + 8 * g, r);
    Quotient(low, 4, w + 2 * x + 4 * u + 8 * g, v + 2 * r);
    Quotient(w + 2 * x + 4 * u + 8 * g, 2, x + 2 * u + 4 * g, w);
    Quotient(low, 8, x + 2 * u + 4 * g, v + 2 * r + 4 * w);
    Quotient(x + 2 * u + 4 * g, 2, u + 2 * g, x);
    Quotient(low, 16, u + 2 * g, v + 2 * r + 4 * w + 8 * x);
    Quotient(u + 2 * g, 2, g, u);
  }

  /** The parts of an entry around its flags. */
  lemma PartsReadBack(low: nat, a: nat, d: nat, soft: nat, ppn: nat)
    requires low < 64 && a < 2 && d < 2 && soft < 4
    ensures
      var pte := Entry(4 * ppn + soft, d, a, low);
      pte % 64 == low && A(pte) == (a == 1) && D(pte) == (d == 1) && Ppn(pte) == ppn
  {
    EntryParts(4 * ppn + soft, d, a, low);
    Quotient(Entry(4 * ppn + soft, d, a, low), 1024, ppn, 256 * soft + 128 * d + 64 * a + low);
  }

  /** Where the flags and the page number stand in an entry: V, R, W, X and U from bit 0 up, a global
      bit that a walk never reads, A and D, two bits left to software, and the page number. */
  lemma FlagsReadBack(v: nat, r: nat, w: nat, x: nat, u: nat, g: nat, a: nat, d: nat, soft: nat, ppn: nat)
    requires v < 2 && r < 2 && w < 2 && x < 2 && u < 2 && g < 2 && a < 2 && d < 2 && soft < 4
    ensures
      var pte := v + 2 * r + 4 * w + 8 * x + 16 * u + 32 * g + 64 * a + 128 * d + 256 * soft + 1024 * ppn;
      && V(pte) == (v == 1) && R(pte) == (r == 1) && W(pte) == (w == 1) && X(pte) == (x == 1) && U(pte) == (u == 1)
      && A(pte) == (a == 1) && D(pte) == (d == 1) && Ppn(pte) == ppn
  {
    var low := LowFlags(v, r, w, x, u, g);
    var pte := Entry(4 * ppn + soft, d, a, low);
    PartsReadBack(low, a, d, soft, ppn);
    FlagsAroundAD(pte);
    assert pte == v + 2 * r + 4 * w + 8 * x + 16 * u + 32 * g + 64 * a + 128 * d + 256 * soft + 1024 * ppn;
  }

  lemma EntryWord(rest: nat, d: nat, a: nat, low: nat)
    requires d < 2 && a < 2 && low < 64
    ensures Entry(rest, d, a, low) % TWO_32 == Entry(rest % 0x100_0000, d, a, low)
  {
    Quotient(Entry(rest, d, a, low), TWO_32, rest / 0x100_0000, Entry(rest % 0x100_0000, d, a, low));
  }

  lemma PartsOf(p: nat) returns (rest: nat, d: nat, a: nat, low: nat)
    ensures p == Entry(rest, d, a, low) && d < 2 && a < 2 && low < 64
  {
    rest, low := p / 256, p % 256;
    d := if low >= 128 then 1 else 0;
    low := low - 128 * d;
    a := if low >= 64 then 1 else 0;
    low := low - 64 * a;
  }

  lemma SetADOnlyAD(pte: nat, t: Access)
    ensures SameButAD(SetAD(pte, t) % TWO_32, pte % TWO_32) && HasAD(SetAD(pte, t), t)
  {
    var rest, d, a, low := PartsOf(pte);
    EntryParts(rest, d, a, low);
    var d' := if t == Store then 1 else d;
    assert SetAD(pte, t) == Entry(rest, d', 1, low);
    EntryParts(rest, d', 1, low);
    EntryWord(rest, d, a, low);
    EntryWord(rest, d', 1, low);
    EntryParts(rest % 0x100_0000, d, a, low);
    EntryParts(rest % 0x100_0000, d', 1, low);
  }

  /** The write-back sets what the access needs, and sets the dirty bit for stores only. */
  lemma SetADBits(pte: nat, t: Access)
    ensures A(SetAD(pte, t)) && (D(SetAD(pte, t)) <==> D(pte) || t == Store)
  {
    var rest, d, a, low := PartsOf(pte);
    EntryParts(rest, d, a, low);
    EntryParts(rest, if t == Store then 1 else d, 1, low);
    assert SetAD(pte, t) == Entry(rest, if t == Store then 1 else d, 1, low);
  }

  lemma LowWord(vm: Vm, m: Memory, a: nat)
    ensures LoadPte(vm, m, a) % TWO_32 == Word(m, a)
  {
  }

  /** The walk's own write-back changes A and D bits and nothing else. */
  lemma WriteBackOnlyAD(c: Control, m: Memory, va: nat, t: Access, mode: Mode)
    requires RootOk(c)
    ensures MemoriesSameButAD(c.vm, m, AfterTranslate(c, m, va, t, mode))
    ensures c.faultOnAD ==> AfterTranslate(c, m, va, t, mode) == m
  {
    WalkFindsEntry(c, m, va, t, mode);
    var f := Translate(c, m, va, t, mode);
    if f.Leaf? {
      LowWord(c.vm, m, f.pteAddr);
      SetADOnlyAD(f.pte, t);
    }
  }

  /** No walk changes the outcome of any walk: of no address, for no access, in no mode. */
  lemma WalksDoNotInterfere(c: Control, m: Memory, va: nat, t: Access, mode: Mode,
                            va': nat, t': Access, mode': Mode)
    requires RootOk(c)
    ensures OutcomeOf(c, AfterTranslate(c, m, va, t, mode), va', t', mode') == OutcomeOf(c, m, va', t', mode')
  {
    WriteBackOnlyAD(c, m, va, t, mode);
    if !c.faultOnAD {
      WalkIgnoresAD(c, m, AfterTranslate(c, m, va, t, mode), va', t', mode');
    }
  }

  // ---------------------------------------------------------------- translation is by page

  /** The same leaf, reached at another offset of the page. */
  predicate SameFrame(offset: nat, f: Found, g: Found) {
    match (f, g)
    case (PageFault, PageFault) => true
    case (Table(b), Table(b')) => b == b'
    case (Leaf(pa, a, pte), Leaf(pa', a', pte')) => pa' == FrameOf(pa) + offset && a == a' && pte == pte'
    case _ => false
  }

  lemma JudgeSamePage(c: Control, pte: nat, a: nat, va: nat, va': nat, t: Access, mode: Mode, i: nat)
    requires va / PGSIZE == va' / PGSIZE
    ensures SameFrame(va' % PGSIZE, Judge(c, pte, a, va, t, mode, i), Judge(c, pte, a, va', t, mode, i))
  {
    LeafFrame(c.vm, pte, va, i);
  }

  /** A physical page begins at a multiple of the page size, wrapped or not. */
  lemma LeafFrame(vm: Vm, pte: nat, va: nat, i: nat)
    ensures LeafAddress(vm, pte, va, i) % PGSIZE == va % PGSIZE
    ensures LeafAddress(vm, pte, va, i) / PGSIZE * PGSIZE == LeafAddress(vm, pte, va, i) - va % PGSIZE
  {
    var n := PagesAt(vm, i);
    var frame := Ppn(pte) / n * n + va / PGSIZE % n;
    WrapKeepsMultiple(frame);
    FrameAndOffset(W64(frame * PGSIZE), va % PGSIZE);
  }

  lemma FrameAndOffset(frame: nat, offset: nat)
    requires frame % PGSIZE == 0 && offset < PGSIZE
    ensures (frame + offset) % PGSIZE == offset && (frame + offset) / PGSIZE * PGSIZE == frame
  {
    Quotient(frame + offset, PGSIZE, frame / PGSIZE, offset);
  }

  lemma CanonicalSamePage(vm: Vm, va: nat, va': nat)
    requires va / PGSIZE == va' / PGSIZE
    ensures Canonical(vm, va) == Canonical(vm, va')
  {
    forall x | x in {va, va'}
      ensures x / 0x40_0000_0000 == x / PGSIZE / 0x400_0000 && x / 0x8000_0000_0000 == x / PGSIZE / 0x8_0000_0000
      ensures x / 0x100_0000_0000_0000 == x / PGSIZE / 0x1000_0000_0000
    {
      PagesFirst(x, 0x400_0000);
      PagesFirst(x, 0x8_0000_0000);
      PagesFirst(x, 0x1000_0000_0000);
    }
  }

  lemma StepsSamePage(c: Control, m: Memory, va: nat, va': nat, t: Access, mode: Mode)
    requires va / PGSIZE == va' / PGSIZE
    ensures StepsRelated(Steps(c, m, va, t, mode), Steps(c, m, va', t, mode),
                         (x: Found, y: Found) => SameFrame(va' % PGSIZE, x, y))
  {
    var f, g := Steps(c, m, va, t, mode), Steps(c, m, va', t, mode);
    var rel := (x: Found, y: Found) => SameFrame(va' % PGSIZE, x, y);
    forall b: nat, j: nat | b % PGSIZE == 0
      ensures rel(f(b, j), g(b, j)) && (f(b, j).Table? ==> f(b, j).base % PGSIZE == 0)
    {
      var a := PteAddr(c.vm, b, va, j);
      JudgeSamePage(c, LoadPte(c.vm, m, a), a, va, va', t, mode, j);
      TableAligned(c, LoadPte(c.vm, m, a), a, va, t, mode, j);
    }
  }

  /** Translation is by page: within a page all addresses fault, or keep their offset in one frame. */
  lemma SamePage(c: Control, m: Memory, va: nat, va': nat, t: Access, mode: Mode)
    requires RootOk(c) && va / PGSIZE == va' / PGSIZE
    ensures match OutcomeOf(c, m, va, t, mode)
            case Faults => OutcomeOf(c, m, va', t, mode) == Faults
            case Reaches(pa) => OutcomeOf(c, m, va', t, mode) == Reaches(FrameOf(pa) + va' % PGSIZE)
  {
    CanonicalSamePage(c.vm, va, va');
    StepsSamePage(c, m, va, va', t, mode);
    DescendRelated(Steps(c, m, va, t, mode), Steps(c, m, va', t, mode),
                   (x: Found, y: Found) => SameFrame(va' % PGSIZE, x, y), c.root, Levels(c.vm) - 1);
  }

  /** The page offset is kept, and a leaf at a higher level keeps the page number within its
      superpage: the frame is the leaf's plus that number. */
  lemma LeafKeepsOffset(c: Control, pte: nat, a: nat, va: nat, t: Access, mode: Mode, i: nat)
    requires Judge(c, pte, a, va, t, mode, i).Leaf? && Ppn(pte) < 0x1000_0000_0000
    ensures var pa := Judge(c, pte, a, va, t, mode, i).pa;
            pa % PGSIZE == va % PGSIZE && pa / PGSIZE == Ppn(pte) + va / PGSIZE % PagesAt(c.vm, i)
  {
    var n := PagesAt(c.vm, i);
    AlignedQuotient(Ppn(pte), n);
    var frame := Ppn(pte) + va / PGSIZE % n;
    Quotient(frame * PGSIZE, TWO_64, 0, frame * PGSIZE);
    Quotient(frame * PGSIZE + va % PGSIZE, PGSIZE, frame, va % PGSIZE);
  }

  lemma AlignedQuotient(x: nat, n: nat)
    requires n > 0 && x % n == 0
    ensures x / n * n == x
  {
  }
}
