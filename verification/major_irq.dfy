/** Selection of the major interrupt that machine level reports: the packed priorities the core
    compares, and the priority order of the Advanced Interrupt Architecture. */
module MajorIrq {
  import opened AiaRouting
  import opened ImsicSpec

  const MAX_INTERRUPTS_NUM: nat := 64

  /** Default order of the major interrupts, by identity; 0 is the highest. */
  function ToOrder(iid: nat): nat
    requires iid < MAX_INTERRUPTS_NUM
  {
    match iid
    case 0 => 59 case 1 => 16 case 2 => 20 case 3 => 13 case 4 => 60 case 5 => 17 case 6 => 21 case 7 => 14
    case 8 => 61 case 9 => 15 case 10 => 19 case 11 => 12 case 12 => 18 case 13 => 22 case 14 => 62 case 15 => 63
    case 16 => 33 case 17 => 30 case 18 => 27 case 19 => 24 case 20 => 10 case 21 => 7 case 22 => 4 case 23 => 1
    case 24 => 35 case 25 => 36 case 26 => 37 case 27 => 38 case 28 => 39 case 29 => 40 case 30 => 41 case 31 => 42
    case 32 => 34 case 33 => 32 case 34 => 31 case 35 => 29 case 36 => 28 case 37 => 26 case 38 => 25 case 39 => 23
    case 40 => 11 case 41 => 9 case 42 => 8 case 43 => 6 case 44 => 5 case 45 => 3 case 46 => 2 case 47 => 0
    case 48 => 43 case 49 => 44 case 50 => 45 case 51 => 46 case 52 => 47 case 53 => 48 case 54 => 49 case 55 => 50
    case 56 => 51 case 57 => 52 case 58 => 53 case 59 => 54 case 60 => 55 case 61 => 56 case 62 => 57 case 63 => 58
  }

  /** The identity at each place of the default order. */
  function AtPlace(place: nat): nat
    requires place < MAX_INTERRUPTS_NUM
  {
    match place
    case 0 => 47 case 1 => 23 case 2 => 46 case 3 => 45 case 4 => 22 case 5 => 44 case 6 => 43 case 7 => 21
    case 8 => 42 case 9 => 41 case 10 => 20 case 11 => 40 case 12 => 11 case 13 => 3 case 14 => 7 case 15 => 9
    case 16 => 1 case 17 => 5 case 18 => 12 case 19 => 10 case 20 => 2 case 21 => 6 case 22 => 13 case 23 => 39
    case 24 => 19 case 25 => 38 case 26 => 37 case 27 => 18 case 28 => 36 case 29 => 35 case 30 => 17 case 31 => 34
    case 32 => 33 case 33 => 16 case 34 => 32 case 35 => 24 case 36 => 25 case 37 => 26 case 38 => 27 case 39 => 28
    case 40 => 29 case 41 => 30 case 42 => 31 case 43 => 48 case 44 => 49 case 45 => 50 case 46 => 51 case 47 => 52
    case 48 => 53 case 49 => 54 case 50 => 55 case 51 => 56 case 52 => 57 case 53 => 58 case 54 => 59 case 55 => 60
    case 56 => 61 case 57 => 62 case 58 => 63 case 59 => 0 case 60 => 4 case 61 => 8 case 62 => 14 case 63 => 15
  }

  /** The table is a permutation: no two interrupts share a place. */
  lemma OrderInjective(i: nat, j: nat)
    requires i < MAX_INTERRUPTS_NUM && j < MAX_INTERRUPTS_NUM
    ensures ToOrder(i) < MAX_INTERRUPTS_NUM
    ensures ToOrder(i) == ToOrder(j) <==> i == j
  {
    PlaceOf(i);
    PlaceOf(j);
  }

  lemma PlaceOf(i: nat)
    requires i < MAX_INTERRUPTS_NUM
    ensures ToOrder(i) < MAX_INTERRUPTS_NUM && AtPlace(ToOrder(i)) == i
  {
  }

  /** The default order of the standard: first the high-priority local interrupts. */
  lemma HighLocalsFirst()
    ensures ToOrder(47) < ToOrder(23) < ToOrder(46) < ToOrder(45) < ToOrder(22) < ToOrder(44) < ToOrder(43)
    ensures ToOrder(43) < ToOrder(21) < ToOrder(42) < ToOrder(41) < ToOrder(20) < ToOrder(40) < ToOrder(11)
  {
  }

  /** Then external, software and timer of the machine and of the supervisor, guest external, the three
      of virtual supervisors, and counter overflow. */
  lemma LevelsInOrder()
    ensures ToOrder(11) < ToOrder(3) < ToOrder(7) < ToOrder(9) < ToOrder(1) < ToOrder(5) < ToOrder(12)
    ensures ToOrder(12) < ToOrder(10) < ToOrder(2) < ToOrder(6) < ToOrder(13)
  {
  }

  /** Then the low-priority local interrupts. */
  lemma LowLocalsLast()
    ensures ToOrder(13) < ToOrder(39) < ToOrder(19) < ToOrder(38) < ToOrder(37) < ToOrder(18) < ToOrder(36)
    ensures ToOrder(36) < ToOrder(35) < ToOrder(17) < ToOrder(34) < ToOrder(33) < ToOrder(16) < ToOrder(32)
  {
  }

  // ---------------------------------------------------------------- the packed priority

  /** The fields of a comparable priority, least significant first. */
  datatype Cprio = Cprio(order: nat, iprio: nat, dpr0: nat, nonexisting: nat) {
    function Packed(): nat {
      order + 0x100 * iprio + 0x100_0000 * dpr0 + 0x200_0000 * nonexisting
    }
  }

  predicate FieldsFit(c: Cprio) {
    c.order < 0x100 && c.iprio < 0x1_0000 && c.dpr0 < 2 && c.nonexisting < 2
  }

  const LOWEST_NONEXISTING := Cprio(0, 0, 0, 1)

  /** The interrupts of machine level: the priority number of each, and the external identity. */
  datatype Prios = Prios(iprio: seq<nat>, topei: nat)

  predicate PriosOk(p: Prios) {
    |p.iprio| == MAX_INTERRUPTS_NUM && (forall i :: 0 <= i < MAX_INTERRUPTS_NUM ==> p.iprio[i] < 256)
    && p.topei < IMSIC_MAX_IRQS
  }

  /** The number that an interrupt competes with. */
  function Number(p: Prios, iid: nat): nat
    requires PriosOk(p) && iid < MAX_INTERRUPTS_NUM
  {
    if iid == M_EXTERNAL then p.topei else p.iprio[iid]
  }

  function CprioOf(p: Prios, iid: nat): Cprio
    requires PriosOk(p) && iid < MAX_INTERRUPTS_NUM
  {
    if iid == M_EXTERNAL then Cprio(ToOrder(M_EXTERNAL), p.topei, 0, 0)
    else Cprio(ToOrder(iid), p.iprio[iid],
               if p.iprio[iid] == 0 && ToOrder(M_EXTERNAL) < ToOrder(iid) then 1 else 0, 0)
  }

  function ToIprio(c: Cprio): nat {
    if 1 <= c.iprio <= 255 then c.iprio
    else if c.iprio > 255 then 255
    else if c.dpr0 == 0 then 0
    else 255
  }

  // ---------------------------------------------------------------- the documented order

  /** Before all numbers: number zero with a default order not below the external interrupt's.
      After all numbers: number zero with a lower default order.  Else by number. */
  datatype Rank = Above | Numbered(n: nat) | Below

  function RankOf(p: Prios, iid: nat): Rank
    requires PriosOk(p) && iid < MAX_INTERRUPTS_NUM
  {
    if Number(p, iid) != 0 then Numbered(Number(p, iid))
    else if ToOrder(iid) <= ToOrder(M_EXTERNAL) then Above
    else Below
  }

  predicate RankBefore(a: Rank, b: Rank) {
    match (a, b)
    case (Above, Numbered(_)) => true
    case (Above, Below) => true
    case (Numbered(n), Numbered(n')) => n < n'
    case (Numbered(_), Below) => true
    case _ => false
  }

  /** Interrupt `i` has priority over `j`: by rank, then by default order. */
  predicate Before(p: Prios, i: nat, j: nat)
    requires PriosOk(p) && i < MAX_INTERRUPTS_NUM && j < MAX_INTERRUPTS_NUM
  {
    RankBefore(RankOf(p, i), RankOf(p, j)) || (RankOf(p, i) == RankOf(p, j) && ToOrder(i) < ToOrder(j))
  }

  /** The documented order is strict and total. */
  lemma BeforeIsStrictTotal(p: Prios, i: nat, j: nat, k: nat)
    requires PriosOk(p) && i < MAX_INTERRUPTS_NUM && j < MAX_INTERRUPTS_NUM && k < MAX_INTERRUPTS_NUM
    ensures !Before(p, i, i)
    ensures Before(p, i, j) && Before(p, j, k) ==> Before(p, i, k)
    ensures i != j ==> Before(p, i, j) || Before(p, j, i)
  {
    OrderInjective(i, j);
  }

  /** Comparing packed words compares the fields, most significant first. */
  lemma PackedIsLexicographic(a: Cprio, b: Cprio)
    requires FieldsFit(a) && FieldsFit(b)
    ensures a.Packed() < b.Packed() <==>
      a.nonexisting < b.nonexisting || (a.nonexisting == b.nonexisting && (a.dpr0 < b.dpr0 || (a.dpr0 == b.dpr0 &&
        (a.iprio < b.iprio || (a.iprio == b.iprio && a.order < b.order)))))
  {
  }

  /** The core's comparison is the documented order. */
  lemma PackedIsBefore(p: Prios, i: nat, j: nat)
    requires PriosOk(p) && i < MAX_INTERRUPTS_NUM && j < MAX_INTERRUPTS_NUM
    ensures FieldsFit(CprioOf(p, i)) && CprioOf(p, i).Packed() < LOWEST_NONEXISTING.Packed()
    ensures CprioOf(p, i).Packed() < CprioOf(p, j).Packed() <==> Before(p, i, j)
  {
    OrderInjective(i, j);
    OrderInjective(j, M_EXTERNAL);
    OrderInjective(i, M_EXTERNAL);
    PackedIsLexicographic(CprioOf(p, i), CprioOf(p, j));
  }

  /** The reported 8-bit priority never contradicts the order. */
  lemma ToIprioMonotone(p: Prios, i: nat, j: nat)
    requires PriosOk(p) && i < MAX_INTERRUPTS_NUM && j < MAX_INTERRUPTS_NUM && Before(p, i, j)
    ensures ToIprio(CprioOf(p, i)) <= ToIprio(CprioOf(p, j)) < 256
  {
  }

  /** The scan over the pending interrupts returns the one that has priority over all others. */
  method MajorIrqPrepareIidPrio(p: Prios, pending: set<nat>) returns (iid: nat, iprio: nat)
    requires PriosOk(p) && pending != {} && forall i :: i in pending ==> i < MAX_INTERRUPTS_NUM
    ensures iid in pending && forall j :: j in pending && j != iid ==> Before(p, iid, j)
    ensures iprio == ToIprio(CprioOf(p, iid))
  {
    var cprio := LOWEST_NONEXISTING;
    iid := 0;
    var i := 0;
    while i < MAX_INTERRUPTS_NUM
      invariant i <= MAX_INTERRUPTS_NUM
      invariant if cprio == LOWEST_NONEXISTING then forall j :: j in pending ==> i <= j
                else iid in pending && iid < i && cprio == CprioOf(p, iid)
                     && forall j :: j in pending && j < i && j != iid ==> Before(p, iid, j)
    {
      if i in pending {
        var next := CprioOf(p, i);
        PackedIsBefore(p, i, i);
        if cprio != LOWEST_NONEXISTING {
          PackedIsBefore(p, i, iid);
          BeforeIsStrictTotal(p, i, iid, iid);
        }
        if next.Packed() < cprio.Packed() {
          forall j | j in pending && j < i && j != i ensures Before(p, i, j) {
            BeforeIsStrictTotal(p, i, iid, j);
          }
          cprio := next;
          iid := i;
        }
      }
      i := i + 1;
    }
    assert cprio != LOWEST_NONEXISTING;
    iprio := ToIprio(cprio);
  }
}
