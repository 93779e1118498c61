/** Which entries a walk reads: their indices spell the page number, so walks keep pages apart. */
module MmuIndex {
  import opened Division
  import opened MemoryAccess
  import opened MmuSpec

  // One digit of a page number: as many bits as a table has index bits.
  function Low(vm: Vm, x: nat): nat { if vm == Sv32 then x % 1024 else x % 512 }
  function Up(vm: Vm, x: nat): nat { if vm == Sv32 then x / 1024 else x / 512 }

  function Digit(vm: Vm, x: nat, i: nat): nat {
    if i == 0 then Low(vm, x) else Digit(vm, Up(vm, x), i - 1)
  }

  /** The number whose digits are `d`, the lowest first: weights 1, 512, 512^2 and so on, or powers
      of 1024. */
  function Weighted(vm: Vm, d: seq<nat>): nat {
    if d == [] then 0 else d[0] + IdxSize(vm) * Weighted(vm, d[1..])
  }

  function Pow(vm: Vm, k: nat): nat { if k == 0 then 1 else IdxSize(vm) * Pow(vm, k - 1) }

  function Above(vm: Vm, x: nat, k: nat): nat { if k == 0 then x else Above(vm, Up(vm, x), k - 1) }

  /** The entry that the walk of `va` reads in the table at `base`, by its place in the table. */
  function EntryIndex(vm: Vm, base: nat, va: nat, i: nat): int {
    (PteAddr(vm, base, va, i) - base) / PteSize(vm)
  }

  predicate IsTable(base: nat) { base % PGSIZE == 0 && base < TWO_64 }

  /** How many pages a scheme translates. */
  function Width(vm: Vm): nat {
    match vm case Sv32 => 0x10_0000 case Sv39 => 0x800_0000 case Sv48 => 0x10_0000_0000 case Sv57 => 0x2000_0000_0000
  }

  /** The addresses a program can use: 32 bits, or sign-extended ones. */
  predicate Addressable(vm: Vm, va: nat) {
    va < (if vm == Sv32 then TWO_32 else TWO_64) && Canonical(vm, va)
  }

  // ---------------------------------------------------------------- digits

  /** A number is what its lowest digits spell, and the rest above them. */
  lemma {:induction false} Spelled(vm: Vm, x: nat, d: seq<nat>)
    requires forall i :: 0 <= i < |d| ==> d[i] == Digit(vm, x, i)
    ensures Weighted(vm, d) < Pow(vm, |d|)
    ensures x == Weighted(vm, d) + Pow(vm, |d|) * Above(vm, x, |d|)
  {
    if d != [] {
      assert d[0] == Digit(vm, x, 0);
      forall i | 0 <= i < |d[1..]| ensures d[1..][i] == Digit(vm, Up(vm, x), i) {
        assert d[i + 1] == Digit(vm, x, i + 1);
      }
      Spelled(vm, Up(vm, x), d[1..]);
      LowUp(vm, x);
      NextDigit(vm, x, Up(vm, x), d[0], Weighted(vm, d[1..]), Pow(vm, |d| - 1), Above(vm, x, |d|));
    }
  }

  lemma LowUp(vm: Vm, x: nat)
    ensures x == Low(vm, x) + IdxSize(vm) * Up(vm, x) && Low(vm, x) < IdxSize(vm)
  {
  }

  lemma NextDigit(vm: Vm, x: nat, up: nat, low: nat, rest: nat, p: nat, above: nat)
    requires x == low + IdxSize(vm) * up && low < IdxSize(vm) && rest < p && up == rest + p * above
    ensures low + IdxSize(vm) * rest < IdxSize(vm) * p
    ensures x == low + IdxSize(vm) * rest + IdxSize(vm) * p * above
  {
    Scaled(vm, p, above);
  }

  lemma Scaled(vm: Vm, p: nat, x: nat)
    ensures IdxSize(vm) * p * x == IdxSize(vm) * (p * x)
  {
  }

  lemma WidthIsPower(vm: Vm)
    ensures Width(vm) == Pow(vm, Levels(vm))
  {
    assert Pow(vm, 1) == IdxSize(vm);
    assert vm != Sv32 ==> Pow(vm, 2) == 0x4_0000;
    assert vm != Sv32 ==> Pow(vm, 3) == 0x800_0000;
    assert vm != Sv32 ==> Pow(vm, 4) == 0x10_0000_0000;
  }

  lemma SpelledModulo(vm: Vm, x: nat, d: seq<nat>)
    requires |d| == Levels(vm) && forall i :: 0 <= i < |d| ==> d[i] == Digit(vm, x, i)
    ensures Weighted(vm, d) == x % Width(vm)
  {
    Spelled(vm, x, d);
    WidthIsPower(vm);
    Quotient(x, Width(vm), Above(vm, x, |d|), Weighted(vm, d));
  }

  /** Digits in range are those of the number they spell. */
  lemma {:induction false} DigitsOfSpelled(vm: Vm, d: seq<nat>, i: nat)
    requires i < |d| && forall k :: 0 <= k < |d| ==> d[k] < IdxSize(vm)
    ensures Digit(vm, Weighted(vm, d), i) == d[i]
  {
    Quotient(Weighted(vm, d), IdxSize(vm), Weighted(vm, d[1..]), d[0]);
    if i > 0 {
      DigitsOfSpelled(vm, d[1..], i - 1);
    }
  }

  // ---------------------------------------------------------------- the indices of a walk

  /** Tables never wrap, so the entry read lies in the table, at a digit of the page number. */
  lemma EntryIsADigit(vm: Vm, base: nat, va: nat, i: nat)
    requires IsTable(base) && i < Levels(vm)
    ensures var digit := Digit(vm, va / PGSIZE, i);
      && digit < IdxSize(vm) && EntryIndex(vm, base, va, i) == digit
      && PteAddr(vm, base, va, i) == base + digit * PteSize(vm)
  {
    var digit := va / PGSIZE / PagesAt(vm, i) % IdxSize(vm);
    LevelDigit(vm, va / PGSIZE, i);
    InTable(base, digit * PteSize(vm));
    Quotient(base + digit * PteSize(vm), TWO_64, 0, base + digit * PteSize(vm));
    if vm == Sv32 { Quotient(digit * 4, 4, digit, 0); } else { Quotient(digit * 8, 8, digit, 0); }
  }

  lemma LevelDigit(vm: Vm, page: nat, i: nat)
    requires i < Levels(vm)
    ensures page / PagesAt(vm, i) % IdxSize(vm) == Digit(vm, page, i)
  {
    if vm != Sv32 && i >= 2 {
      UpFirst(page, PagesAt(vm, i - 1));
      LevelDigit(vm, page / 512, i - 1);
    }
  }

  lemma UpFirst(x: nat, n: nat)
    requires n > 0
    ensures x / (512 * n) == x / 512 / n
  {
    var high, low := x / 512, x % 512;
    var q, r := high / n, high % n;
    assert high == n * q + r;
    Scaled(Sv39, n, q);
    Quotient(x, 512 * n, q, 512 * r + low);
  }

  lemma InTable(base: nat, offset: nat)
    requires IsTable(base) && offset < PGSIZE
    ensures base + offset < TWO_64
  {
    var k := base / PGSIZE;
    assert base == PGSIZE * k;
  }

  /** The entry indices of all levels, in whatever tables, spell the page number. */
  lemma IndicesSpellThePage(vm: Vm, va: nat, bases: seq<nat>, d: seq<nat>)
    requires |bases| == |d| == Levels(vm) && forall i :: 0 <= i < |bases| ==> IsTable(bases[i])
    requires forall i :: 0 <= i < |d| ==> d[i] == EntryIndex(vm, bases[i], va, i)
    ensures Weighted(vm, d) == va / PGSIZE % Width(vm)
  {
    forall i | 0 <= i < |d| ensures d[i] == Digit(vm, va / PGSIZE, i) {
      EntryIsADigit(vm, bases[i], va, i);
    }
    SpelledModulo(vm, va / PGSIZE, d);
  }

  /** The translated bits of the page number and their sign give all of it. */
  lemma SignDecides(p: nat, q: nat, half: nat, ones: nat)
    requires half > 0 && ones % 2 == 1
    requires (p / half == 0 || p / half == ones) && (q / half == 0 || q / half == ones)
    requires p % (2 * half) == q % (2 * half)
    ensures p == q
  {
    SignAndRest(p, half, ones);
    SignAndRest(q, half, ones);
  }

  lemma SignAndRest(p: nat, half: nat, ones: nat)
    requires half > 0 && ones % 2 == 1 && (p / half == 0 || p / half == ones)
    ensures p == half * (p / half) + p % half
    ensures p % (2 * half) == p % half + if p / half == 0 then 0 else half
  {
    if p / half == 0 {
      Quotient(p, 2 * half, 0, p % half);
    } else {
      var k := ones / 2;
      assert ones == 2 * k + 1;
      assert half * (2 * k + 1) == 2 * half * k + half;
      Quotient(p, 2 * half, k, half + p % half);
    }
  }

  /** An address is known by its page number modulo the width. */
  lemma ResidueDecides(vm: Vm, va: nat, va': nat)
    requires Addressable(vm, va) && Addressable(vm, va')
    requires va / PGSIZE % Width(vm) == va' / PGSIZE % Width(vm)
    ensures va / PGSIZE == va' / PGSIZE
  {
    match vm
    case Sv32 =>
      Quotient(va / PGSIZE, 0x10_0000, 0, va / PGSIZE);
      Quotient(va' / PGSIZE, 0x10_0000, 0, va' / PGSIZE);
    case Sv39 =>
      PagesFirst(va, 0x400_0000);
      PagesFirst(va', 0x400_0000);
      SignDecides(va / PGSIZE, va' / PGSIZE, 0x400_0000, 0x3FF_FFFF);
    case Sv48 =>
      PagesFirst(va, 0x8_0000_0000);
      PagesFirst(va', 0x8_0000_0000);
      SignDecides(va / PGSIZE, va' / PGSIZE, 0x8_0000_0000, 0x1_FFFF);
    case Sv57 =>
      PagesFirst(va, 0x1000_0000_0000);
      PagesFirst(va', 0x1000_0000_0000);
      SignDecides(va / PGSIZE, va' / PGSIZE, 0x1000_0000_0000, 0xFF);
  }

  /** And every page number modulo the width has an address: low ones as they are, high ones with the
      sign extended. */
  lemma ResidueHasAddress(vm: Vm, r: nat) returns (va: nat)
    requires r < Width(vm)
    ensures Addressable(vm, va) && va / PGSIZE % Width(vm) == r
  {
    va := r * PGSIZE;
    Quotient(va, PGSIZE, r, 0);
    Quotient(r, Width(vm), 0, r);
    if vm != Sv32 && 2 * r >= Width(vm) {
      va := TWO_64 - Width(vm) * PGSIZE + r * PGSIZE;
      match vm
      case Sv39 => HighPageSv39(r);
      case Sv48 => HighPageSv48(r);
      case Sv57 => HighPageSv57(r);
    } else {
      LowPage(vm, r);
    }
  }

  lemma LowPage(vm: Vm, r: nat)
    requires r < Width(vm) && (vm == Sv32 || 2 * r < Width(vm))
    ensures Addressable(vm, r * PGSIZE)
  {
    match vm
    case Sv32 =>
    case Sv39 => Quotient(r * PGSIZE, 0x40_0000_0000, 0, r * PGSIZE);
    case Sv48 => Quotient(r * PGSIZE, 0x8000_0000_0000, 0, r * PGSIZE);
    case Sv57 => Quotient(r * PGSIZE, 0x100_0000_0000_0000, 0, r * PGSIZE);
  }

  lemma HighPageSv39(r: nat)
    requires 0x4000000 <= r < 0x8000000
    ensures var va := 0xffffff8000000000 + r * PGSIZE;
            Addressable(Sv39, va) && va / PGSIZE % 0x8000000 == r
  {
    var va := 0xffffff8000000000 + r * PGSIZE;
    Quotient(va, PGSIZE, 0xffffff8000000 + r, 0);
    Quotient(0xffffff8000000 + r, 0x8000000, 0x1ffffff, r);
    Quotient(va, 0x4000000000, 0x3ffffff, (r - 0x4000000) * PGSIZE);
  }

  lemma HighPageSv48(r: nat)
    requires 0x800000000 <= r < 0x1000000000
    ensures var va := 0xffff000000000000 + r * PGSIZE;
            Addressable(Sv48, va) && va / PGSIZE % 0x1000000000 == r
  {
    var va := 0xffff000000000000 + r * PGSIZE;
    Quotient(va, PGSIZE, 0xffff000000000 + r, 0);
    Quotient(0xffff000000000 + r, 0x1000000000, 0xffff, r);
    Quotient(va, 0x800000000000, 0x1ffff, (r - 0x800000000) * PGSIZE);
  }

  lemma HighPageSv57(r: nat)
    requires 0x100000000000 <= r < 0x200000000000
    ensures var va := 0xfe00000000000000 + r * PGSIZE;
            Addressable(Sv57, va) && va / PGSIZE % 0x200000000000 == r
  {
    var va := 0xfe00000000000000 + r * PGSIZE;
    Quotient(va, PGSIZE, 0xfe00000000000 + r, 0);
    Quotient(0xfe00000000000 + r, 0x200000000000, 0x7f, r);
    Quotient(va, 0x100000000000000, 0xff, (r - 0x100000000000) * PGSIZE);
  }

  /** Two addresses that read equal indices at every level lie in one page. */
  lemma SameIndicesSamePage(vm: Vm, va: nat, va': nat, bases: seq<nat>)
    requires Addressable(vm, va) && Addressable(vm, va')
    requires |bases| == Levels(vm) && forall i :: 0 <= i < |bases| ==> IsTable(bases[i])
    requires forall i :: 0 <= i < |bases| ==>
               EntryIndex(vm, bases[i], va, i) == EntryIndex(vm, bases[i], va', i)
    ensures va / PGSIZE == va' / PGSIZE
  {
    forall i | 0 <= i < |bases| ensures EntryIndex(vm, bases[i], va, i) >= 0 {
      EntryIsADigit(vm, bases[i], va, i);
    }
    var d: seq<nat> := seq(|bases|, i requires 0 <= i < |bases| && EntryIndex(vm, bases[i], va, i) >= 0 =>
                                      EntryIndex(vm, bases[i], va, i));
    IndicesSpellThePage(vm, va, bases, d);
    IndicesSpellThePage(vm, va', bases, d);
    ResidueDecides(vm, va, va');
  }

  // ---------------------------------------------------------------- one chain of tables

  /** An entry that points to the table at `next`. */
  predicate PointsTo(pte: nat, next: nat) {
    V(pte) && !R(pte) && !W(pte) && !X(pte) && W64(Ppn(pte) * PGSIZE) == next
  }

  /** An entry that serves the access as a page of 4 KiB. */
  predicate Serves(c: Control, pte: nat, t: Access, mode: Mode) {
    V(pte) && (R(pte) || (X(pte) && !W(pte))) && Permits(c, pte, t, mode) && (c.faultOnAD ==> HasAD(pte, t))
  }

  /** A table with one valid entry, at index `d`: a pointer to the next table, or a leaf at level 0. */
  ghost predicate OneEntry(c: Control, m: Memory, bases: seq<nat>, l: nat, d: nat, t: Access, mode: Mode)
    requires l < |bases|
  {
    && IsTable(bases[l]) && d < IdxSize(c.vm)
    && forall j: nat {:trigger LoadPte(c.vm, m, bases[l] + j * PteSize(c.vm))} :: j < IdxSize(c.vm) ==>
         var pte := LoadPte(c.vm, m, bases[l] + j * PteSize(c.vm));
         if j != d then !V(pte) else if l > 0 then PointsTo(pte, bases[l - 1]) else Serves(c, pte, t, mode)
  }

  /** Tables from the root down, each with one entry, at the digits of a number. */
  ghost predicate Chain(c: Control, m: Memory, bases: seq<nat>, d: seq<nat>, t: Access, mode: Mode) {
    && |bases| == |d| == Levels(c.vm) && bases[|bases| - 1] == c.root
    && forall l: nat :: l < |d| ==> OneEntry(c, m, bases, l, d[l], t, mode)
  }

  predicate Matches(c: Control, d: seq<nat>, va: nat, l: nat)
    requires l < |d|
  {
    d[l] == Digit(c.vm, va / PGSIZE, l)
  }

  /** One level of the chain: the entry of another page is not there. */
  lemma ChainStep(c: Control, m: Memory, bases: seq<nat>, d: seq<nat>, t: Access, mode: Mode, va: nat, l: nat)
    requires Chain(c, m, bases, d, t, mode) && l < |d|
    ensures var found := StepAt(c, m, va, t, mode, bases[l], l);
      if !Matches(c, d, va, l) then found == PageFault
      else if l > 0 then found == Table(bases[l - 1])
      else found.Leaf?
  {
    assert OneEntry(c, m, bases, l, d[l], t, mode);
    EntryIsADigit(c.vm, bases[l], va, l);
  }

  lemma {:induction false} ChainDescent(c: Control, m: Memory, bases: seq<nat>, d: seq<nat>, t: Access, mode: Mode,
                                        va: nat, l: nat)
    requires Chain(c, m, bases, d, t, mode) && l < |d|
    ensures Descend(Steps(c, m, va, t, mode), bases[l], l).Leaf? <==> forall i: nat :: i <= l ==> Matches(c, d, va, i)
  {
    ChainStep(c, m, bases, d, t, mode, va, l);
    if Matches(c, d, va, l) && l > 0 {
      ChainDescent(c, m, bases, d, t, mode, va, l - 1);
    }
  }

  /** Walks keep pages apart: with one chain of tables whose entries lie at the digits of a page, and
      nothing else, exactly the addresses of that page translate. */
  lemma ChainMapsOnePage(c: Control, m: Memory, bases: seq<nat>, d: seq<nat>, t: Access, mode: Mode,
                         page: nat, va: nat)
    requires Chain(c, m, bases, d, t, mode)
    requires Addressable(c.vm, page * PGSIZE) && Weighted(c.vm, d) == page % Width(c.vm)
    requires Addressable(c.vm, va)
    ensures Translate(c, m, va, t, mode).Leaf? <==> va / PGSIZE == page
  {
    ChainDescent(c, m, bases, d, t, mode, va, |d| - 1);
    Quotient(page * PGSIZE, PGSIZE, page, 0);
    forall l: nat | l < |d| ensures d[l] < IdxSize(c.vm) {
      assert OneEntry(c, m, bases, l, d[l], t, mode);
    }
    if Translate(c, m, va, t, mode).Leaf? {
      forall i | 0 <= i < |d| ensures d[i] == Digit(c.vm, va / PGSIZE, i) {
        assert Matches(c, d, va, i);
      }
      SpelledModulo(c.vm, va / PGSIZE, d);
      ResidueDecides(c.vm, va, page * PGSIZE);
    }
    if va / PGSIZE == page {
      DigitsOfPage(c.vm, page, d);
      assert forall l: nat :: l < |d| ==> Matches(c, d, va, l);
    }
  }

  lemma DigitsOfPage(vm: Vm, page: nat, d: seq<nat>)
    requires |d| == Levels(vm) && forall i :: 0 <= i < |d| ==> d[i] < IdxSize(vm)
    requires Weighted(vm, d) == page % Width(vm)
    ensures forall i :: 0 <= i < |d| ==> d[i] == Digit(vm, page, i)
  {
    var e := seq(|d|, i requires 0 <= i < |d| => Digit(vm, page, i));
    SpelledModulo(vm, page, e);
    forall i | 0 <= i < |e| ensures e[i] < IdxSize(vm) {
      DigitInRange(vm, page, i);
    }
    forall i | 0 <= i < |d| ensures d[i] == e[i] {
      DigitsOfSpelled(vm, d, i);
      DigitsOfSpelled(vm, e, i);
    }
  }

  lemma {:induction false} DigitInRange(vm: Vm, x: nat, i: nat)
    ensures Digit(vm, x, i) < IdxSize(vm)
  {
    if i > 0 {
      DigitInRange(vm, Up(vm, x), i - 1);
    }
  }

  const USER_LOADS := Control(Sv32, 0, false, false, false)

  const TWO_TABLES: Memory := map[4 := 0x401, 0x1008 := 0x1453]

  lemma RootTable()
    ensures OneEntry(USER_LOADS, TWO_TABLES, [0x1000, 0], 1, 1, Load, User)
  {
    assert LoadPte(Sv32, TWO_TABLES, 4) == 0x401;
    assert PointsTo(0x401, 0x1000);
    forall j: nat | j < 1024 && j != 1 ensures LoadPte(Sv32, TWO_TABLES, 0 + j * 4) == 0 {
    }
  }

  lemma LeafTable()
    ensures OneEntry(USER_LOADS, TWO_TABLES, [0x1000, 0], 0, 2, Load, User)
  {
    assert LoadPte(Sv32, TWO_TABLES, 0x1008) == 0x1453;
    assert Serves(USER_LOADS, 0x1453, Load, User);
    forall j: nat | j < 1024 && j != 2 ensures LoadPte(Sv32, TWO_TABLES, 0x1000 + j * 4) == 0 {
    }
  }

  /** A chain: root entry 1 points to the table at 4096, whose entry 2 is the page 5. */
  lemma TwoLevelChain()
    ensures Chain(USER_LOADS, TWO_TABLES, [0x1000, 0], [2, 1], Load, User) && Weighted(Sv32, [2, 1]) == 0x402
  {
    RootTable();
    LeafTable();
    assert Weighted(Sv32, [1]) == 1;
  }

  /** A superpage in root entry 1 serves addresses from 4 MiB on. */
  lemma SecondSuperpage()
    ensures var c := Control(Sv32, 0, false, false, false); var m: Memory := map[4 := 83];
      OutcomeOf(c, m, 0x40_0000, Load, User) == Reaches(0) && OutcomeOf(c, m, 0, Load, User) == Faults
  {
    var c, m := Control(Sv32, 0, false, false, false), map[4 := 83];
    assert PteAddr(Sv32, 0, 0x40_0000, 1) == 4 && PteAddr(Sv32, 0, 0, 1) == 0;
    assert LoadPte(Sv32, m, 4) == 83 && LoadPte(Sv32, m, 0) == 0;
    assert StepAt(c, m, 0x40_0000, Load, User, 0, 1) == Leaf(0, 4, 83);
    assert StepAt(c, m, 0, Load, User, 0, 1) == PageFault;
  }
}
