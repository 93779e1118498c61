/** Supervisor physical-memory protection: which entry decides an access, and what it decides. */
module SpmpSpec {
  import opened Division
  import opened MemoryAccess

  const SPMP_ENTRIES: nat := 64
  const TWO_32: nat := 0x1_0000_0000

  datatype AddrMatch = Off | Tor | Na4 | Napot

  /** The configuration byte of an entry. */
  datatype Cfg = Cfg(r: bool, w: bool, x: bool, a: AddrMatch, s: bool)

  /** The protection registers: configuration, address, and the switched-on entries. */
  datatype Config = Config(cfg: seq<Cfg>, addr: seq<nat>, switch: set<nat>)

  function Pow2(n: nat): (p: nat)
    ensures p > 0
  {
    if n == 0 then 1 else 2 * Pow2(n - 1)
  }

  /** Position of the least significant zero bit. */
  function TrailingOnes(v: nat): nat {
    if v % 2 == 0 then 0 else 1 + TrailingOnes(v / 2)
  }

  /** The value with its `k` least significant bits cleared. */
  function ClearLow(v: nat, k: nat): (r: nat)
    ensures r <= v < r + Pow2(k)
  {
    if k == 0 then v else 2 * ClearLow(v / 2, k - 1)
  }

  ghost predicate ConfigOk(c: Config) {
    && |c.cfg| == SPMP_ENTRIES && |c.addr| == SPMP_ENTRIES
    && (forall i :: 0 <= i < SPMP_ENTRIES ==> c.addr[i] < TWO_32)
    // the mask of a power-of-two region is a shifted int
    && (forall i :: 0 <= i < SPMP_ENTRIES && c.cfg[i].a == Napot ==> TrailingOnes(c.addr[i]) <= 29)
  }

  /** The bytes from `start` up to `end`; none when they are not in order. */
  datatype Region = Region(start: nat, end: nat) {
    predicate Contains(b: nat) { start <= b < end }
  }

  /** The bytes entry `i` covers.  Top-of-range and four-byte addresses are shifted in 32 bits. */
  function RegionOf(c: Config, i: nat): Region
    requires i < |c.cfg| && i < |c.addr|
  {
    match c.cfg[i].a
    case Off => Region(0, 0)
    case Tor => Region(if i == 0 then 0 else c.addr[i - 1] * 4 % TWO_32, c.addr[i] * 4 % TWO_32)
    case Na4 => Region(c.addr[i] * 4 % TWO_32, c.addr[i] * 4 % TWO_32 + 4)
    case Napot =>
      var bits := TrailingOnes(c.addr[i]) + 1;
      Region(4 * ClearLow(c.addr[i], bits), 4 * ClearLow(c.addr[i], bits) + 4 * Pow2(bits))
  }

  /** An entry that can match: not off, switched on, and with a region that is not empty. */
  predicate Active(c: Config, i: nat)
    requires i < |c.cfg| && i < |c.addr|
  {
    c.cfg[i].a != Off && i in c.switch && RegionOf(c, i).start < RegionOf(c, i).end
  }

  /** The bytes of an access. */
  datatype Bytes = Bytes(addr: nat, size: nat) {
    predicate Has(b: nat) { addr <= b < addr + size }

    function FirstWord(): nat { addr / 4 * 4 }

    function LastWord(): nat
      requires size > 0
    {
      (addr + size - 1) / 4 * 4
    }

    /** Nonempty, and within two consecutive aligned words. */
    predicate WithinTwoWords() { size > 0 && LastWord() <= FirstWord() + 4 }
  }

  ghost predicate Touches(r: Region, x: Bytes) { exists b :: x.Has(b) && r.Contains(b) }

  ghost predicate Covers(r: Region, x: Bytes) { forall b :: x.Has(b) ==> r.Contains(b) }

  predicate WordAligned(r: Region) { r.start % 4 == 0 && r.end % 4 == 0 }

  lemma RegionsAreAligned(c: Config, i: nat)
    requires i < |c.cfg| && i < |c.addr|
    ensures WordAligned(RegionOf(c, i))
  {
    if c.cfg[i].a == Napot {
      var start, size := ClearLow(c.addr[i], TrailingOnes(c.addr[i]) + 1), Pow2(TrailingOnes(c.addr[i]) + 1);
      FourTimes(start);
      FourTimes(start + size);
    } else {
      FourTimes(c.addr[i]);
      FourTimes(c.addr[i] * 4 % TWO_32 / 4 + 1);
      if i > 0 { FourTimes(c.addr[i - 1]); }
    }
  }

  lemma FourTimes(n: nat)
    ensures 4 * n % 4 == 0 && n * 4 % TWO_32 % 4 == 0
  {
    Quotient(4 * n, 4, n, 0);
    Quotient(n * 4, TWO_32, n / 0x4000_0000, n % 0x4000_0000 * 4);
    Quotient(n % 0x4000_0000 * 4, 4, n % 0x4000_0000, 0);
  }

  lemma {:induction false} ClearLowIsMultiple(v: nat, k: nat) returns (q: nat)
    ensures ClearLow(v, k) == q * Pow2(k)
  {
    if k == 0 {
      q := v;
    } else {
      q := ClearLowIsMultiple(v / 2, k - 1);
      assert 2 * (q * Pow2(k - 1)) == q * (2 * Pow2(k - 1));
    }
  }

  /** A power-of-two region is as large as its encoding says, starts at a multiple of its size,
      and holds the bytes at the encoded address. */
  lemma NapotRegion(c: Config, i: nat) returns (q: nat)
    requires i < |c.cfg| && i < |c.addr| && c.cfg[i].a == Napot
    ensures var size := 4 * Pow2(TrailingOnes(c.addr[i]) + 1); var r := RegionOf(c, i);
            r.end - r.start == size && r.start == q * size && r.Contains(4 * c.addr[i])
  {
    var bits := TrailingOnes(c.addr[i]) + 1;
    q := ClearLowIsMultiple(c.addr[i], bits);
    assert 4 * (q * Pow2(bits)) == q * (4 * Pow2(bits));
  }

  /** A top-of-range region reaches from the address before up to its own, a four-byte region is one
      word, as long as the shift by two fits 32 bits. */
  lemma RangeRegions(c: Config, i: nat, b: nat)
    requires i < |c.cfg| && i < |c.addr| && 4 * c.addr[i] < TWO_32 && (i > 0 ==> 4 * c.addr[i - 1] < TWO_32)
    ensures c.cfg[i].a == Tor ==>
              (RegionOf(c, i).Contains(b) <==> (i > 0 ==> c.addr[i - 1] <= b / 4) && b / 4 < c.addr[i])
    ensures c.cfg[i].a == Na4 ==> (RegionOf(c, i).Contains(b) <==> b / 4 == c.addr[i])
    ensures c.cfg[i].a == Off ==> !RegionOf(c, i).Contains(b)
  {
    Quotient(c.addr[i] * 4, TWO_32, 0, c.addr[i] * 4);
    if i > 0 {
      Quotient(c.addr[i - 1] * 4, TWO_32, 0, c.addr[i - 1] * 4);
    }
  }

  // ---------------------------------------------------------------- the deciding entry

  /** The lowest-numbered active entry from `i` on that touches any byte of the access. */
  ghost function FirstTouching(c: Config, x: Bytes, i: nat): nat
    requires |c.cfg| == SPMP_ENTRIES && |c.addr| == SPMP_ENTRIES && i <= SPMP_ENTRIES
    decreases SPMP_ENTRIES - i
  {
    if i == SPMP_ENTRIES then SPMP_ENTRIES
    else if Active(c, i) && Touches(RegionOf(c, i), x) then i
    else FirstTouching(c, x, i + 1)
  }

  lemma {:induction false} FirstTouchingIsLeast(c: Config, x: Bytes, i: nat)
    requires |c.cfg| == SPMP_ENTRIES && |c.addr| == SPMP_ENTRIES && i <= SPMP_ENTRIES
    ensures var f := FirstTouching(c, x, i);
            && i <= f <= SPMP_ENTRIES
            && (f < SPMP_ENTRIES ==> Active(c, f) && Touches(RegionOf(c, f), x))
            && forall j :: i <= j < f ==> !(Active(c, j) && Touches(RegionOf(c, j), x))
    decreases SPMP_ENTRIES - i
  {
    if i < SPMP_ENTRIES && !(Active(c, i) && Touches(RegionOf(c, i), x)) {
      FirstTouchingIsLeast(c, x, i + 1);
    }
  }

  lemma {:induction false} FirstTouchingFrom(c: Config, x: Bytes, i: nat, f: nat)
    requires |c.cfg| == SPMP_ENTRIES && |c.addr| == SPMP_ENTRIES && i <= f < SPMP_ENTRIES
    requires Active(c, f) && Touches(RegionOf(c, f), x)
    requires forall j :: i <= j < f ==> !(Active(c, j) && Touches(RegionOf(c, j), x))
    ensures FirstTouching(c, x, i) == f
    decreases f - i
  {
    if i < f {
      FirstTouchingFrom(c, x, i + 1, f);
    }
  }

  // ---------------------------------------------------------------- the decision

  predicate CheckRwx(e: Cfg, t: Access) {
    match t case Fetch => e.x case Load => e.r case Store => e.w
  }

  /** What the permission bits of the deciding entry say at the current privilege. */
  predicate IsAccessAllowed(e: Cfg, t: Access, prv: nat, sum: bool) {
    if !e.s then
      if !e.r && e.w && e.x then t != Fetch
      else if !e.r && e.w && !e.x then (if prv == SUPERVISOR then t != Fetch else t == Load)
      else if prv == SUPERVISOR then sum && t != Fetch && CheckRwx(e, t)
      else CheckRwx(e, t)
    else
      if e.r && e.w && e.x then t == Load
      else if !e.r && e.w && e.x then (if prv == USER then t == Fetch else t != Store)
      else if !e.r && e.w && !e.x then t == Fetch
      else if !e.r && !e.w && !e.x then false
      else prv != USER && CheckRwx(e, t)
  }

  /** The encoding table of the protection unit: what each setting of the S, R, W and X bits gives to
      supervisor mode and to user mode. */
  datatype Rights = Rights(supervisor: set<Access>, user: set<Access>)

  function Table(e: Cfg, sum: bool): Rights {
    match (e.s, e.r, e.w, e.x)
    // user entries, which supervisor mode reads and writes under SUM
    case (false, false, false, false) => Rights({}, {})
    case (false, false, false, true) => Rights({}, {Fetch})
    case (false, true, false, false) => Rights(if sum then {Load} else {}, {Load})
    case (false, true, false, true) => Rights(if sum then {Load} else {}, {Load, Fetch})
    case (false, true, true, false) => Rights(if sum then {Load, Store} else {}, {Load, Store})
    case (false, true, true, true) => Rights(if sum then {Load, Store} else {}, {Load, Store, Fetch})
    // shared data
    case (false, false, true, false) => Rights({Load, Store}, {Load})
    case (false, false, true, true) => Rights({Load, Store}, {Load, Store})
    // supervisor entries
    case (true, false, false, false) => Rights({}, {})
    case (true, false, false, true) => Rights({Fetch}, {})
    case (true, true, false, false) => Rights({Load}, {})
    case (true, true, false, true) => Rights({Load, Fetch}, {})
    case (true, true, true, false) => Rights({Load, Store}, {})
    // shared code and shared read-only data
    case (true, false, true, false) => Rights({Fetch}, {Fetch})
    case (true, false, true, true) => Rights({Load, Fetch}, {Fetch})
    case (true, true, true, true) => Rights({Load}, {Load})
  }

  /** The tests of the source are the table. */
  lemma AllowedByTable(e: Cfg, t: Access, sum: bool)
    ensures IsAccessAllowed(e, t, SUPERVISOR, sum) <==> t in Table(e, sum).supervisor
    ensures IsAccessAllowed(e, t, USER, sum) <==> t in Table(e, sum).user
  {
  }

  /** Setting SUM takes nothing away. */
  lemma SumOnlyGrants(e: Cfg, t: Access, prv: nat)
    ensures IsAccessAllowed(e, t, prv, false) ==> IsAccessAllowed(e, t, prv, true)
  {
  }

  datatype Verdict = Allowed | Denied

  /** The decision without the cache: the deciding entry must cover the access and permit it at the
      current privilege; with no entry, accesses checked as a supervisor's pass and others do not. */
  ghost function Decide(c: Config, x: Bytes, t: Access, mode: nat, prv: nat, sum: bool): Verdict
    requires |c.cfg| == SPMP_ENTRIES && |c.addr| == SPMP_ENTRIES
  {
    FirstTouchingIsLeast(c, x, 0);
    var f := FirstTouching(c, x, 0);
    if f == SPMP_ENTRIES then (if mode == SUPERVISOR then Allowed else Denied)
    else if Covers(RegionOf(c, f), x) && IsAccessAllowed(c.cfg[f], t, prv, sum) then Allowed
    else Denied
  }

  /** The accesses the core makes: fetches of four bytes at even addresses, and naturally aligned
      loads and stores of up to eight bytes. */
  predicate Issued(x: Bytes, t: Access) {
    if t == Fetch then x.size == 4 && x.addr % 2 == 0
    else (x.size == 1 || x.size == 2 || x.size == 4 || x.size == 8) && x.addr % x.size == 0
  }

  lemma IssuedWithinTwoWords(x: Bytes, t: Access)
    requires Issued(x, t)
    ensures x.WithinTwoWords()
  {
    var q, r := x.addr / 4, x.addr % 4;
    if x.size == 8 {
      assert x.addr % 8 == 0;
      Quotient(x.addr, 4, 2 * (x.addr / 8), 0);
    }
    if r + x.size <= 4 {
      Quotient(x.addr + x.size - 1, 4, q, r + x.size - 1);
    } else {
      Quotient(x.addr + x.size - 1, 4, q + 1, r + x.size - 5);
    }
  }

  // ---------------------------------------------------------------- remembering a region

  predicate Overlap(r: Region, r': Region) {
    r.start < r'.end && r'.start < r.end
  }

  /** An access inside an entry's region that no lower active entry overlaps is decided by it. */
  lemma InsideIsDecided(c: Config, k: nat, x: Bytes)
    requires ConfigOk(c) && k < SPMP_ENTRIES && Active(c, k) && x.size > 0 && Covers(RegionOf(c, k), x)
    requires forall j :: 0 <= j < k && Active(c, j) ==> !Overlap(RegionOf(c, j), RegionOf(c, k))
    ensures FirstTouching(c, x, 0) == k
  {
    assert x.Has(x.addr);
    forall j | 0 <= j < k && Active(c, j) ensures !Touches(RegionOf(c, j), x) {
    }
    FirstTouchingFrom(c, x, 0, k);
  }

  /** Is the word with number `n` decided by an entry below `k`? */
  ghost predicate TakenBelow(c: Config, k: nat, n: nat)
    requires |c.cfg| == SPMP_ENTRIES && |c.addr| == SPMP_ENTRIES
  {
    FirstTouching(c, Bytes(4 * n, 4), 0) < k
  }

  /** Between two numbers that differ in a property, two neighbours do. */
  lemma Boundary(taken: nat -> bool, lo: nat, hi: nat) returns (n: nat)
    requires lo < hi && taken(lo) != taken(hi)
    ensures lo <= n < hi && taken(n) != taken(n + 1)
  {
    n := lo;
    while taken(n) == taken(n + 1)
      invariant lo <= n < hi && taken(n) == taken(lo)
      decreases hi - n
    {
      n := n + 1;
    }
  }

  /** One aligned word is covered by every region that touches it. */
  lemma WordTouchedIsCovered(r: Region, w: nat)
    requires WordAligned(r) && w % 4 == 0
    ensures Touches(r, Bytes(w, 4)) <==> r.Contains(w)
    ensures Touches(r, Bytes(w, 4)) ==> Covers(r, Bytes(w, 4))
  {
    if r.Contains(w) { assert Bytes(w, 4).Has(w); }
  }

  /** An access that lies across two neighbouring words, of which an entry below `k` takes exactly
      one, is denied whatever the permissions: no entry that decides it covers both. */
  lemma StraddleIsDenied(c: Config, k: nat, n: nat, t: Access, mode: nat, prv: nat, sum: bool)
    requires ConfigOk(c) && k < SPMP_ENTRIES && TakenBelow(c, k, n) != TakenBelow(c, k, n + 1)
    ensures Decide(c, Bytes(4 * n + 2, 4), t, mode, prv, sum) == Denied
  {
    var both, x0, x1 := Bytes(4 * n + 2, 4), Bytes(4 * n, 4), Bytes(4 * (n + 1), 4);
    FirstTouchingIsLeast(c, both, 0);
    FirstTouchingIsLeast(c, x0, 0);
    FirstTouchingIsLeast(c, x1, 0);
    var low := if TakenBelow(c, k, n) then FirstTouching(c, x0, 0) else FirstTouching(c, x1, 0);
    EntryAcross(c, low, n);
    TouchedUpTo(c, both, low);
    var f := FirstTouching(c, both, 0);
    EntryAcross(c, f, n);
    if Covers(RegionOf(c, f), both) {
      TouchedUpTo(c, x0, f);
      TouchedUpTo(c, x1, f);
    }
  }

  lemma TouchedUpTo(c: Config, x: Bytes, j: nat)
    requires |c.cfg| == SPMP_ENTRIES && |c.addr| == SPMP_ENTRIES && j < SPMP_ENTRIES
    requires Active(c, j) && Touches(RegionOf(c, j), x)
    ensures FirstTouching(c, x, 0) <= j
  {
    FirstTouchingIsLeast(c, x, 0);
  }

  lemma EntryAcross(c: Config, i: nat, n: nat)
    requires |c.cfg| == SPMP_ENTRIES && |c.addr| == SPMP_ENTRIES && i < SPMP_ENTRIES
    ensures var r, both := RegionOf(c, i), Bytes(4 * n + 2, 4);
      && (Touches(r, Bytes(4 * n, 4)) || Touches(r, Bytes(4 * (n + 1), 4)) ==> Touches(r, both))
      && (Covers(r, both) ==> Touches(r, Bytes(4 * n, 4)) && Touches(r, Bytes(4 * (n + 1), 4)))
  {
    RegionsAreAligned(c, i);
    NeighboursTouched(RegionOf(c, i), 4 * n);
    assert 4 * (n + 1) == 4 * n + 4;
  }

  lemma NeighboursTouched(r: Region, u: nat)
    requires WordAligned(r) && u % 4 == 0
    ensures Touches(r, Bytes(u, 4)) || Touches(r, Bytes(u + 4, 4)) ==> Touches(r, Bytes(u + 2, 4))
    ensures Covers(r, Bytes(u + 2, 4)) ==> Touches(r, Bytes(u, 4)) && Touches(r, Bytes(u + 4, 4))
  {
    WordTouchedIsCovered(r, u);
    WordTouchedIsCovered(r, u + 4);
    var both := Bytes(u + 2, 4);
    assert both.Has(u + 2) && both.Has(u + 3) && both.Has(u + 4);
    assert Bytes(u, 4).Has(u + 2) && Bytes(u, 4).Has(u + 3) && Bytes(u + 4, 4).Has(u + 4);
  }

  /** The word of an access that entry `k` decides is not taken below `k`. */
  lemma DecidedWord(c: Config, k: nat, x: Bytes)
    requires ConfigOk(c) && k < SPMP_ENTRIES && x.size > 0 && FirstTouching(c, x, 0) == k
    ensures !TakenBelow(c, k, x.addr / 4)
  {
    var w := 4 * (x.addr / 4);
    FirstTouchingIsLeast(c, x, 0);
    FirstTouchingIsLeast(c, Bytes(w, 4), 0);
    var f := FirstTouching(c, Bytes(w, 4), 0);
    if f < SPMP_ENTRIES {
      RegionsAreAligned(c, f);
      FirstByteTouched(RegionOf(c, f), x, w);
    }
  }

  /** A region that touches the word an access begins in touches the access. */
  lemma FirstByteTouched(r: Region, x: Bytes, w: nat)
    requires WordAligned(r) && x.size > 0 && w == 4 * (x.addr / 4) && Touches(r, Bytes(w, 4))
    ensures Touches(r, x)
  {
    Quotient(w, 4, x.addr / 4, 0);
    WordTouchedIsCovered(r, w);
    assert Bytes(w, 4).Has(x.addr) && x.Has(x.addr);
  }

  /** A word where a lower active entry overlaps region `k` is taken below `k`. */
  lemma OverlappedWord(c: Config, k: nat, j: nat) returns (n: nat)
    requires ConfigOk(c) && j < k < SPMP_ENTRIES && Active(c, j) && Active(c, k)
    requires Overlap(RegionOf(c, j), RegionOf(c, k))
    ensures TakenBelow(c, k, n) && RegionOf(c, k).Contains(4 * n)
  {
    var r, s := RegionOf(c, j), RegionOf(c, k);
    RegionsAreAligned(c, j);
    RegionsAreAligned(c, k);
    n := (if r.start < s.start then s.start else r.start) / 4;
    WordTouchedIsCovered(r, 4 * n);
    FirstTouchingIsLeast(c, Bytes(4 * n, 4), 0);
  }

  /** Every access the core may make inside the region of entry `k` is allowed by the lookup. */
  ghost predicate AllInsideAllowed(c: Config, k: nat, t: Access, mode: nat, prv: nat, sum: bool)
    requires |c.cfg| == SPMP_ENTRIES && |c.addr| == SPMP_ENTRIES && k < SPMP_ENTRIES
  {
    forall x: Bytes :: Issued(x, t) && Covers(RegionOf(c, k), x) ==> Decide(c, x, t, mode, prv, sum) == Allowed
  }

  ghost predicate NoLowerOverlap(c: Config, k: nat)
    requires |c.cfg| == SPMP_ENTRIES && |c.addr| == SPMP_ENTRIES && k < SPMP_ENTRIES
  {
    forall j :: 0 <= j < k && Active(c, j) ==> !Overlap(RegionOf(c, j), RegionOf(c, k))
  }

  /** Some active entry below `j` holds all bytes from `lo` up to `hi`. */
  ghost predicate HeldBelow(c: Config, j: nat, lo: nat, hi: nat)
    requires |c.cfg| == SPMP_ENTRIES && |c.addr| == SPMP_ENTRIES && j <= SPMP_ENTRIES
  {
    exists i :: 0 <= i < j && Active(c, i) && RegionOf(c, i).start <= lo && hi <= RegionOf(c, i).end
  }

  /** Entry `j`, below `k`, holds byte `b` of region `k` and refuses the access type. */
  ghost predicate Refuses(c: Config, j: nat, k: nat, b: nat, t: Access, prv: nat, sum: bool)
    requires |c.cfg| == SPMP_ENTRIES && |c.addr| == SPMP_ENTRIES && k < SPMP_ENTRIES
  {
    j < k && Active(c, j) && RegionOf(c, j).Contains(b) && RegionOf(c, k).Contains(b)
    && !IsAccessAllowed(c.cfg[j], t, prv, sum)
  }

  /** What the entries below `k` refuse inside its region is held by still lower ones. */
  ghost predicate LowerEntriesPermit(c: Config, k: nat, t: Access, prv: nat, sum: bool)
    requires |c.cfg| == SPMP_ENTRIES && |c.addr| == SPMP_ENTRIES && k < SPMP_ENTRIES
  {
    forall j: nat, b: nat :: Refuses(c, j, k, b, t, prv, sum) ==> HeldBelow(c, j, b, b + 1)
  }

  /** Entry `j`, below `k`, begins or ends in the middle `b` of an aligned double word that lies
      inside region `k`. */
  ghost predicate Splits(c: Config, j: nat, k: nat, b: nat)
    requires |c.cfg| == SPMP_ENTRIES && |c.addr| == SPMP_ENTRIES && k < SPMP_ENTRIES
  {
    && j < k && Active(c, j) && b % 8 == 4 && (b == RegionOf(c, j).start || b == RegionOf(c, j).end)
    && RegionOf(c, k).start <= b - 4 && b + 4 <= RegionOf(c, k).end
  }

  /** No entry below `k` splits a double word of its region, unless a still lower one holds it. */
  ghost predicate NothingSplit(c: Config, k: nat)
    requires |c.cfg| == SPMP_ENTRIES && |c.addr| == SPMP_ENTRIES && k < SPMP_ENTRIES
  {
    forall j: nat, b: nat :: Splits(c, j, k, b) ==> HeldBelow(c, j, b - 4, b + 4)
  }

  /** When remembering the region of an entry that allowed an access is right: whether from then on
      the lookup would allow every access inside the region that the core can make.  For fetches, exactly
      when no lower active entry overlaps the region.  For loads and stores, exactly when the lower
      entries permit what they decide there and split no double word of it. */
  lemma RememberedRegionIsExact(c: Config, k: nat, x: Bytes, t: Access, mode: nat, prv: nat, sum: bool)
    requires ConfigOk(c) && k < SPMP_ENTRIES && Issued(x, t)
    requires FirstTouching(c, x, 0) == k && Covers(RegionOf(c, k), x)
    requires IsAccessAllowed(c.cfg[k], t, prv, sum)
    ensures AllInsideAllowed(c, k, t, mode, prv, sum) <==>
      if t == Fetch then NoLowerOverlap(c, k) else LowerEntriesPermit(c, k, t, prv, sum) && NothingSplit(c, k)
  {
    FirstTouchingIsLeast(c, x, 0);
    if t == Fetch {
      FetchRegionIsExact(c, k, x, mode, prv, sum);
    } else {
      DataRegionIsExact(c, k, t, mode, prv, sum);
    }
  }

  lemma FetchRegionIsExact(c: Config, k: nat, x: Bytes, mode: nat, prv: nat, sum: bool)
    requires ConfigOk(c) && k < SPMP_ENTRIES && Active(c, k) && x.size > 0
    requires FirstTouching(c, x, 0) == k && Covers(RegionOf(c, k), x)
    requires IsAccessAllowed(c.cfg[k], Fetch, prv, sum)
    ensures AllInsideAllowed(c, k, Fetch, mode, prv, sum) <==> NoLowerOverlap(c, k)
  {
    if NoLowerOverlap(c, k) {
      forall y: Bytes | Issued(y, Fetch) && Covers(RegionOf(c, k), y)
        ensures Decide(c, y, Fetch, mode, prv, sum) == Allowed
      {
        InsideIsDecided(c, k, y);
      }
    } else {
      var j :| 0 <= j < k && Active(c, j) && Overlap(RegionOf(c, j), RegionOf(c, k));
      var y := OverlapDenies(c, k, j, x, mode, prv, sum);
    }
  }

  /** With a lower entry overlapping, some fetch inside the region is denied: one at an address that
      is not a multiple of four, across the two entries. */
  lemma OverlapDenies(c: Config, k: nat, j: nat, x: Bytes, mode: nat, prv: nat, sum: bool) returns (y: Bytes)
    requires ConfigOk(c) && j < k < SPMP_ENTRIES && x.size > 0 && Active(c, j) && Active(c, k)
    requires FirstTouching(c, x, 0) == k && Covers(RegionOf(c, k), x)
    requires Overlap(RegionOf(c, j), RegionOf(c, k))
    ensures Issued(y, Fetch) && Covers(RegionOf(c, k), y) && Decide(c, y, Fetch, mode, prv, sum) == Denied
  {
    var lo, hi := DifferentWords(c, k, j, x);
    var n := Boundary((w: nat) => TakenBelow(c, k, w), lo, hi);
    StraddleIsDenied(c, k, n, Fetch, mode, prv, sum);
    RegionsAreAligned(c, k);
    WordsBetween(RegionOf(c, k), lo, hi, n);
    y := Bytes(4 * n + 2, 4);
  }

  /** Of region `k` entry `k` decides one word, and a lower entry that overlaps it another. */
  lemma DifferentWords(c: Config, k: nat, j: nat, x: Bytes) returns (lo: nat, hi: nat)
    requires ConfigOk(c) && j < k < SPMP_ENTRIES && x.size > 0 && Active(c, j) && Active(c, k)
    requires FirstTouching(c, x, 0) == k && Covers(RegionOf(c, k), x)
    requires Overlap(RegionOf(c, j), RegionOf(c, k))
    ensures lo < hi && TakenBelow(c, k, lo) != TakenBelow(c, k, hi)
    ensures RegionOf(c, k).start < 4 * lo + 4 && 4 * hi < RegionOf(c, k).end
  {
    DecidedWord(c, k, x);
    var a := x.addr / 4;
    var b := OverlappedWord(c, k, j);
    assert x.Has(x.addr) && 4 * a <= x.addr < 4 * a + 4;
    lo, hi := if a < b then a else b, if a < b then b else a;
  }

  lemma WordsBetween(r: Region, lo: nat, hi: nat, n: nat)
    requires WordAligned(r) && r.start < 4 * lo + 4 && 4 * hi < r.end && lo <= n < hi
    ensures Issued(Bytes(4 * n + 2, 4), Fetch) && Covers(r, Bytes(4 * n + 2, 4))
  {
    var p, q := r.start / 4, r.end / 4;
    assert r.start == 4 * p && r.end == 4 * q;
    assert p <= lo <= n && n + 1 <= hi < q;
    Quotient(4 * n + 2, 2, 2 * n + 1, 0);
  }

  /** The condition of `RememberedRegionIsExact`, with the permission of the entry itself. */
  ghost predicate RegionIsRight(c: Config, k: nat, t: Access, prv: nat, sum: bool)
    requires |c.cfg| == SPMP_ENTRIES && |c.addr| == SPMP_ENTRIES && k < SPMP_ENTRIES
  {
    IsAccessAllowed(c.cfg[k], t, prv, sum) &&
    if t == Fetch then NoLowerOverlap(c, k) else LowerEntriesPermit(c, k, t, prv, sum) && NothingSplit(c, k)
  }

  lemma RightRegionAllows(c: Config, k: nat, x: Bytes, t: Access, mode: nat, prv: nat, sum: bool)
    requires ConfigOk(c) && k < SPMP_ENTRIES && Active(c, k) && RegionIsRight(c, k, t, prv, sum)
    requires Issued(x, t) && Covers(RegionOf(c, k), x)
    ensures Decide(c, x, t, mode, prv, sum) == Allowed
  {
    if t == Fetch {
      InsideIsDecided(c, k, x);
    } else {
      InsideIsAllowed(c, k, x, t, mode, prv, sum);
    }
  }

  // ---------------------------------------------------------------- loads and stores

  lemma DataRegionIsExact(c: Config, k: nat, t: Access, mode: nat, prv: nat, sum: bool)
    requires ConfigOk(c) && k < SPMP_ENTRIES && Active(c, k) && t != Fetch
    requires IsAccessAllowed(c.cfg[k], t, prv, sum)
    ensures AllInsideAllowed(c, k, t, mode, prv, sum) <==>
      LowerEntriesPermit(c, k, t, prv, sum) && NothingSplit(c, k)
  {
    if AllInsideAllowed(c, k, t, mode, prv, sum) {
      forall j: nat, b: nat | Refuses(c, j, k, b, t, prv, sum) ensures HeldBelow(c, j, b, b + 1) {
        ByteIsHeld(c, k, j, b, t, mode, prv, sum);
      }
      forall j: nat, b: nat | Splits(c, j, k, b) ensures HeldBelow(c, j, b - 4, b + 4) {
        SplitIsHeld(c, k, j, b, t, mode, prv, sum);
      }
    }
    if LowerEntriesPermit(c, k, t, prv, sum) && NothingSplit(c, k) {
      forall x: Bytes | Issued(x, t) && Covers(RegionOf(c, k), x)
        ensures Decide(c, x, t, mode, prv, sum) == Allowed
      {
        InsideIsAllowed(c, k, x, t, mode, prv, sum);
      }
    }
  }

  /** An entry that touches an access bounds the deciding one. */
  lemma DecidedUpTo(c: Config, x: Bytes, j: nat, b: nat)
    requires |c.cfg| == SPMP_ENTRIES && |c.addr| == SPMP_ENTRIES && j < SPMP_ENTRIES && Active(c, j)
    requires x.Has(b) && RegionOf(c, j).Contains(b)
    ensures FirstTouching(c, x, 0) <= j
  {
    TouchedUpTo(c, x, j);
  }

  /** The one-byte access shows that a refusing entry does not decide its byte. */
  lemma ByteIsHeld(c: Config, k: nat, j: nat, b: nat, t: Access, mode: nat, prv: nat, sum: bool)
    requires ConfigOk(c) && k < SPMP_ENTRIES && t != Fetch && Refuses(c, j, k, b, t, prv, sum)
    requires AllInsideAllowed(c, k, t, mode, prv, sum)
    ensures HeldBelow(c, j, b, b + 1)
  {
    var x := Bytes(b, 1);
    assert x.Has(b) && Issued(x, t) && Covers(RegionOf(c, k), x);
    assert Decide(c, x, t, mode, prv, sum) == Allowed;
    DecidedUpTo(c, x, j, b);
    FirstTouchingIsLeast(c, x, 0);
    assert RegionOf(c, FirstTouching(c, x, 0)).Contains(b);
  }

  /** The eight-byte access shows that the double word is decided below the entry that splits it. */
  lemma SplitIsHeld(c: Config, k: nat, j: nat, b: nat, t: Access, mode: nat, prv: nat, sum: bool)
    requires ConfigOk(c) && k < SPMP_ENTRIES && t != Fetch && Splits(c, j, k, b)
    requires AllInsideAllowed(c, k, t, mode, prv, sum)
    ensures HeldBelow(c, j, b - 4, b + 4)
  {
    var x := Bytes(b - 4, 8);
    DoubleWordIssued(b, t);
    assert x.Has(b - 4) && x.Has(b - 1) && x.Has(b);
    assert Covers(RegionOf(c, k), x);
    assert Decide(c, x, t, mode, prv, sum) == Allowed;
    DecidedUpTo(c, x, j, if b == RegionOf(c, j).start then b else b - 1);
    FirstTouchingIsLeast(c, x, 0);
    var f := FirstTouching(c, x, 0);
    HoldsDoubleWord(RegionOf(c, f), b);
    HoldsDoubleWord(RegionOf(c, j), b);
  }

  lemma DoubleWordIssued(b: nat, t: Access)
    requires b % 8 == 4 && t != Fetch
    ensures b >= 4 && Issued(Bytes(b - 4, 8), t)
  {
    Quotient(b - 4, 8, b / 8, 0);
  }

  lemma HoldsDoubleWord(r: Region, b: nat)
    requires b >= 4
    ensures Covers(r, Bytes(b - 4, 8)) ==> r.start <= b - 4 && b + 4 <= r.end
  {
    assert Bytes(b - 4, 8).Has(b - 4) && Bytes(b - 4, 8).Has(b + 3);
  }

  /** A region holds all bytes of a word or none. */
  lemma WholeWord(r: Region, b: nat)
    requires WordAligned(r)
    ensures r.Contains(b) <==> r.Contains(4 * (b / 4))
  {
    var p, q := r.start / 4, r.end / 4;
    assert r.start == 4 * p && r.end == 4 * q;
  }

  lemma SmallInWord(x: Bytes, b: nat)
    requires (x.size == 1 || x.size == 2 || x.size == 4) && x.addr % x.size == 0 && x.Has(b)
    ensures b / 4 == x.addr / 4
  {
    var h := x.addr / 2;
    if x.size == 2 {
      assert x.addr % 2 == 0;
      Quotient(x.addr, 4, h / 2, 2 * (h % 2));
      Quotient(b, 4, h / 2, b - 4 * (h / 2));
    } else if x.size == 4 {
      assert x.addr % 4 == 0;
      Quotient(b, 4, x.addr / 4, b - x.addr);
    }
  }

  /** An aligned access that an entry touches and does not cover is a double word it splits. */
  lemma TouchedNotCovered(r: Region, x: Bytes, t: Access) returns (b: nat)
    requires WordAligned(r) && Issued(x, t) && t != Fetch && Touches(r, x) && !Covers(r, x)
    ensures x.size == 8 && b == x.addr + 4 && b % 8 == 4 && (b == r.start || b == r.end)
  {
    var y :| x.Has(y) && r.Contains(y);
    var z :| x.Has(z) && !r.Contains(z);
    WholeWord(r, y);
    WholeWord(r, z);
    if x.size != 8 {
      SmallInWord(x, y);
      SmallInWord(x, z);
    }
    b := x.addr + 4;
    assert x.addr % 8 == 0;
    var m := x.addr / 8;
    Quotient(b, 8, m, 4);
    InDoubleWord(m, y);
    InDoubleWord(m, z);
    EdgeBetween(r, 2 * m);
  }

  /** A region that holds one of two neighbouring words begins or ends between them. */
  lemma EdgeBetween(r: Region, n: nat)
    requires WordAligned(r) && r.Contains(4 * n) != r.Contains(4 * n + 4)
    ensures 4 * n + 4 == r.start || 4 * n + 4 == r.end
  {
    var p, q := r.start / 4, r.end / 4;
    assert r.start == 4 * p && r.end == 4 * q;
  }

  lemma InDoubleWord(m: nat, b: nat)
    requires 8 * m <= b < 8 * m + 8
    ensures 4 * (b / 4) == 8 * m || 4 * (b / 4) == 8 * m + 4
  {
    if b < 8 * m + 4 { Quotient(b, 4, 2 * m, b - 8 * m); } else { Quotient(b, 4, 2 * m + 1, b - 8 * m - 4); }
  }

  /** Bytes of the access that an entry below `f` holds are decided below `f`. */
  lemma HeldIsDecided(c: Config, f: nat, x: Bytes, lo: nat, hi: nat)
    requires |c.cfg| == SPMP_ENTRIES && |c.addr| == SPMP_ENTRIES && f <= SPMP_ENTRIES
    requires HeldBelow(c, f, lo, hi) && lo < hi && x.Has(lo)
    ensures FirstTouching(c, x, 0) < f
  {
    var i :| 0 <= i < f && Active(c, i) && RegionOf(c, i).start <= lo && hi <= RegionOf(c, i).end;
    DecidedUpTo(c, x, i, lo);
  }

  lemma DecidingEntryCovers(c: Config, k: nat, x: Bytes, t: Access)
    requires ConfigOk(c) && k < SPMP_ENTRIES && t != Fetch && NothingSplit(c, k)
    requires Issued(x, t) && Covers(RegionOf(c, k), x) && FirstTouching(c, x, 0) < k
    ensures Covers(RegionOf(c, FirstTouching(c, x, 0)), x)
  {
    FirstTouchingIsLeast(c, x, 0);
    var f := FirstTouching(c, x, 0);
    if !Covers(RegionOf(c, f), x) {
      RegionsAreAligned(c, f);
      var b := TouchedNotCovered(RegionOf(c, f), x, t);
      HoldsDoubleWord(RegionOf(c, k), b);
      assert Splits(c, f, k, b);
      HeldIsDecided(c, f, x, b - 4, b + 4);
    }
  }

  lemma InsideIsAllowed(c: Config, k: nat, x: Bytes, t: Access, mode: nat, prv: nat, sum: bool)
    requires ConfigOk(c) && k < SPMP_ENTRIES && Active(c, k) && t != Fetch && IsAccessAllowed(c.cfg[k], t, prv, sum)
    requires LowerEntriesPermit(c, k, t, prv, sum) && NothingSplit(c, k)
    requires Issued(x, t) && Covers(RegionOf(c, k), x)
    ensures Decide(c, x, t, mode, prv, sum) == Allowed
  {
    var f := FirstTouching(c, x, 0);
    assert x.Has(x.addr);
    DecidedUpTo(c, x, k, x.addr);
    if f < k {
      DecidingEntryCovers(c, k, x, t);
      FirstTouchingIsLeast(c, x, 0);
      if !IsAccessAllowed(c.cfg[f], t, prv, sum) {
        assert Refuses(c, f, k, x.addr, t, prv, sum);
        HeldIsDecided(c, f, x, x.addr, x.addr + 1);
      }
    }
  }
}
