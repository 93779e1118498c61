/** How a change of a CLINT bit reaches the interrupt files: the mutually recursive routing of
    the core, its termination, and what it keeps. */
module AiaCascade {
  import opened ImsicSpec
  import opened AiaRouting

  const MAX_GUEST: nat := 8

  datatype Privilege = Machine | Supervisor | VirtualSupervisor

  // Interrupts with a priority register at each level.
  const M_IPRIO: set<nat> := {1, 3, 5, 7, 9, 13, 17, 35, 43, 48}
  const S_IPRIO: set<nat> := {1, 2, 5, 6, 10, 12, 13, 17, 35, 43, 48}
  const VS_IPRIO: set<nat> := {1, 5, 13, 17, 35, 43, 48}

  /** The hart state the routing reads and writes. */
  datatype Core = Core(
    clint: Clint, hvictl: Hvictl,
    hgeip: set<nat>, hgeie: set<nat>, vgein: nat,
    nvM: bool, nvS: bool, nvVs: bool,                       // nested-vectored trap vectors
    iprioM: seq<nat>, iprioS: seq<nat>, iprioVs: seq<seq<nat>>,
    mtopei: nat, stopei: nat, vstopei: nat,
    m: File, s: File, vs: seq<File>)
  {
    predicate IsImsicConnected() { vgein != 0 }

    function GuestId(): (g: nat)
      ensures g < MAX_GUEST && (1 <= vgein <= MAX_GUEST ==> g == vgein - 1)
    {
      if vgein == 0 || vgein > MAX_GUEST then MAX_GUEST - 1 else vgein - 1
    }

    function Pends(): Pendings { ComputePendings(clint, hvictl) }

    predicate IsNestedVectored(level: Privilege) {
      match level case Machine => nvM case Supervisor => nvS case VirtualSupervisor => nvVs
    }
  }

  /** One 8-bit priority for each of the 64 major interrupts, at M, at S, and for each guest. */
  ghost predicate IprioOk(m: seq<nat>, s: seq<nat>, vs: seq<seq<nat>>) {
    && |m| == 64 && |s| == 64 && |vs| == MAX_GUEST + 1
    && (forall i :: 0 <= i < 64 ==> m[i] < 256 && s[i] < 256)
    && (forall g :: 0 <= g <= MAX_GUEST ==> |vs[g]| == 64)
    && (forall g, i :: 0 <= g <= MAX_GUEST && 0 <= i < 64 ==> vs[g][i] < 256)
  }

  ghost predicate CoreOk(c: Core) {
    && ClintOk(c.clint)
    && c.vgein <= MAX_GUEST
    && IprioOk(c.iprioM, c.iprioS, c.iprioVs)
    && FileOk(c.m) && FileOk(c.s)
    && |c.vs| == MAX_GUEST && forall g :: 0 <= g < MAX_GUEST ==> FileOk(c.vs[g])
  }

  /** The external interrupt of a level. */
  function ExternalIid(level: Privilege): nat {
    match level
    case Machine => M_EXTERNAL
    case Supervisor => S_EXTERNAL
    case VirtualSupervisor => VS_EXTERNAL
  }

  /** The priority number of a major interrupt at a level: what is written to the level's
      interrupt file for it.  A register that is not present reads zero. */
  function Iprio(c: Core, level: Privilege, iid: nat): nat
    requires |c.iprioM| == 64 && |c.iprioS| == 64 && |c.iprioVs| == MAX_GUEST + 1 && c.vgein <= MAX_GUEST
    requires forall g :: 0 <= g <= MAX_GUEST ==> |c.iprioVs[g]| == 64
    requires iid < 64 && (level.VirtualSupervisor? ==> IsVsIid(iid))
  {
    var s, vs := SRouteMasks(c.clint), VsRouteMasks(c.clint);
    match level
    case Machine => if iid in M_IPRIO then c.iprioM[iid] else 0
    case Supervisor => if iid in S_IPRIO && iid in s.delegated + s.injected then c.iprioS[iid] else 0
    case VirtualSupervisor =>
      var i := TransformVsToS(iid);
      if i in VS_IPRIO && i in MToVsBits(vs.delegated + vs.injected) then c.iprioVs[c.vgein][i] else 0
  }

  /** The level has a priority register for the interrupt, software can reach it, and it holds `v`.
      A guest's registers are those of its bank, at the S number of the interrupt. */
  ghost predicate Registered(c: Core, level: Privilege, iid: nat, v: nat)
    requires CoreOk(c) && iid < 64
  {
    match level
    case Machine => iid in M_IPRIO && v == c.iprioM[iid]
    case Supervisor => iid in S_IPRIO && (iid in c.clint.mideleg || iid in c.clint.mvien) && v == c.iprioS[iid]
    case VirtualSupervisor =>
      && (iid in c.clint.hideleg || iid in c.clint.hvien)
      && exists i :: i in VS_IPRIO && TransformSToVs(i) == Some(iid) && v == c.iprioVs[c.vgein][i]
  }

  lemma IprioIsRegistered(c: Core, level: Privilege, iid: nat, v: nat)
    requires CoreOk(c) && iid < 64 && v != 0 && (level.VirtualSupervisor? ==> IsVsIid(iid))
    ensures Iprio(c, level, iid) == v <==> Registered(c, level, iid, v)
  {
    match level
    case Machine =>
    case Supervisor =>
    case VirtualSupervisor =>
      VsIprioIsRegistered(c, iid, v);
  }

  lemma VsIprioIsRegistered(c: Core, iid: nat, v: nat)
    requires CoreOk(c) && iid < 64 && v != 0 && IsVsIid(iid)
    ensures Iprio(c, VirtualSupervisor, iid) == v <==> Registered(c, VirtualSupervisor, iid, v)
  {
    var i := TransformVsToS(iid);
    TransformsInverse(iid, i);
    assert i in MToVsBits(VsRouteMasks(c.clint).delegated + VsRouteMasks(c.clint).injected)
      <==> iid in c.clint.hideleg || iid in c.clint.hvien;
    forall j | TransformSToVs(j) == Some(iid) ensures j == i {
      TransformsInverse(iid, j);
    }
  }

  // ---------------------------------------------------------------- what the routing keeps

  ghost predicate SignalsGuest(c: Core) {
    |c.vs| == MAX_GUEST && c.IsImsicConnected() && Signals(c.vs[c.GuestId()])
  }

  /** M and S external pending bits are the signals of their files, and a set bit comes with a
      topei that names the least candidate. */
  ghost predicate FilesSynced(c: Core) {
    && (M_EXTERNAL in c.clint.mip <==> Signals(c.m))
    && (S_EXTERNAL in c.clint.mip <==> Signals(c.s))
    && (Signals(c.m) ==> 0 < c.mtopei == NextIid(c.m))
    && (Signals(c.s) ==> 0 < c.stopei == NextIid(c.s))
  }

  /** The guest summary, the guest external interrupt and the VS external interrupt agree with
      the guest files. */
  ghost predicate GuestsSynced(c: Core) {
    && |c.vs| == MAX_GUEST
    && (forall v :: v in c.hgeip <==> 1 <= v <= MAX_GUEST && Signals(c.vs[v - 1]))
    && (S_GUEST_EXTERNAL in c.clint.mip <==> c.hgeip * c.hgeie != {})
    && (VS_EXTERNAL in c.clint.mip <==> SignalsGuest(c))
    && (SignalsGuest(c) ==> 0 < c.vstopei == NextIid(c.vs[c.GuestId()]))
  }

  /** What every state between two operations satisfies. */
  ghost predicate Synced(c: Core) {
    CoreOk(c) && FilesSynced(c) && GuestsSynced(c)
  }

  ghost predicate Grown(f: File, f': File, extra: set<nat>) {
    f' == f.(eip := f'.eip) && f.eip <= f'.eip <= f.eip + extra
  }

  /** The identities that routing major interrupt `iid` may put into each level's file. */
  ghost function MAdds(c: Core, iid: nat): set<nat>
    requires CoreOk(c) && iid < 64
  {
    {0, Iprio(c, Machine, iid), Iprio(c, Machine, S_EXTERNAL)}
  }

  ghost function SAdds(c: Core, iid: nat): set<nat>
    requires CoreOk(c) && iid < 64
  {
    {0, Iprio(c, Supervisor, iid), Iprio(c, Supervisor, VS_EXTERNAL), Iprio(c, Supervisor, S_GUEST_EXTERNAL)}
  }

  ghost function VsAdds(c: Core, iid: nat): set<nat>
    requires CoreOk(c) && iid < 64
  {
    if Rank(iid) == 1 && IsVsIid(iid) then {Iprio(c, VirtualSupervisor, iid)} else {}
  }

  /** Apart from the bits in `bits`, only the four external interrupt bits may differ. */
  ghost predicate SameOutside(x: set<nat>, y: set<nat>, bits: set<nat>) {
    forall i :: i !in bits && !(S_EXTERNAL <= i <= S_GUEST_EXTERNAL) ==> (i in x <==> i in y)
  }

  /** Only pending state changes: identities are added to interrupt files, never removed, and
      only the three given sets; the mip bits in `bits` and the four external ones may change. */
  ghost predicate OnlyPendingGrows(c: Core, c': Core, guest: nat,
                                   bits: set<nat>, mAdd: set<nat>, sAdd: set<nat>, vsAdd: set<nat>) {
    && c' == c.(clint := c.clint.(mip := c'.clint.mip), hgeip := c'.hgeip,
                mtopei := c'.mtopei, stopei := c'.stopei, vstopei := c'.vstopei,
                m := c'.m, s := c'.s, vs := c'.vs)
    && SameOutside(c.clint.mip, c'.clint.mip, bits)
    && Grown(c.m, c'.m, mAdd) && Grown(c.s, c'.s, sAdd)
    && |c'.vs| == |c.vs|
    && forall g :: 0 <= g < |c.vs| ==> Grown(c.vs[g], c'.vs[g], if g == guest then vsAdd else {})
  }

  /** Interrupts whose delivery never goes to a guest file, so never starts another routing. */
  function Rank(iid: nat): nat {
    if iid == S_EXTERNAL || iid == VS_EXTERNAL || iid == S_GUEST_EXTERNAL then 0 else 1
  }

  ghost predicate GuestsUntouched(c: Core, c': Core) {
    && c'.vs == c.vs && c'.hgeip == c.hgeip && c'.vstopei == c.vstopei
    && (VS_EXTERNAL in c'.clint.mip <==> VS_EXTERNAL in c.clint.mip)
  }

  /** The registers after a hardware line changed. */
  function WithBit(c: Clint, iid: nat, set_: bool): Clint {
    c.(mip := if iid !in MIE_MASK then c.mip else if set_ then c.mip + {iid} else c.mip - {iid})
  }

  /** What pends and is enabled at a level. */
  function At(p: Pendings, level: Privilege): set<nat> {
    match level case Machine => p.m case Supervisor => p.s case VirtualSupervisor => p.vs
  }

  /** Between two snapshots `iid` begins to pend at the level. */
  predicate BeginsAt(before: Pendings, now: Pendings, iid: nat, level: Privilege) {
    iid in At(now, level) && iid !in At(before, level)
  }

  /** The level takes such an interrupt as a message: its trap vector is nested-vectored, it has a
      file, and the interrupt is not the one its file raises. */
  predicate TakesMessages(c: Core, iid: nat, level: Privilege) {
    && c.IsNestedVectored(level) && iid != ExternalIid(level)
    && (level.VirtualSupervisor? ==> c.IsImsicConnected())
  }

  /** `iid` also pends at a higher level, which is the only one the routing looks at. */
  predicate HiddenAbove(now: Pendings, iid: nat, level: Privilege) {
    (level != Machine && iid in now.m) || (level == VirtualSupervisor && iid in now.s)
  }

  /** What is delivered to a level: an interrupt that begins to pend there, unless it is hidden. */
  predicate GoesTo(c: Core, before: Pendings, now: Pendings, iid: nat, level: Privilege) {
    BeginsAt(before, now, iid, level) && TakesMessages(c, iid, level) && !HiddenAbove(now, iid, level)
  }

  ghost function FileOf(c: Core, level: Privilege): File
    requires |c.vs| == MAX_GUEST
  {
    match level
    case Machine => c.m
    case Supervisor => c.s
    case VirtualSupervisor => c.vs[c.GuestId()]
  }

  /** The number in the level's priority register of the interrupt is pending in the level's file. */
  ghost predicate InFile(c: Core, c': Core, iid: nat, level: Privilege)
    requires CoreOk(c) && CoreOk(c') && iid < 64
  {
    forall v :: v != 0 && Registered(c, level, iid, v) ==> v in FileOf(c', level).eip
  }

  lemma InFileByNumber(c: Core, c': Core, iid: nat, level: Privilege)
    requires CoreOk(c) && CoreOk(c') && iid < 64 && (level.VirtualSupervisor? ==> IsVsIid(iid))
    ensures InFile(c, c', iid, level)
            <==> (Iprio(c, level, iid) != 0 ==> Iprio(c, level, iid) in FileOf(c', level).eip)
  {
    var number := Iprio(c, level, iid);
    if number != 0 {
      IprioIsRegistered(c, level, iid, number);
    }
    forall v | v != 0 && Registered(c, level, iid, v) ensures v == number {
      IprioIsRegistered(c, level, iid, v);
    }
  }

  /** The interrupt is pending in the file of every level it goes to. */
  ghost predicate Delivered(c: Core, c': Core, before: Pendings, now: Pendings, iid: nat)
    requires CoreOk(c) && CoreOk(c') && iid < 64 && PendingsOk(now, c.hvictl)
  {
    forall level :: GoesTo(c, before, now, iid, level) ==> InFile(c, c', iid, level)
  }

  /** The numbers that the interrupts below `n` bring to a level's file. */
  ghost function Sent(c: Core, before: Pendings, now: Pendings, n: nat, level: Privilege): set<nat>
    requires CoreOk(c) && n <= 64 && PendingsOk(now, c.hvictl)
  {
    set iid | 0 <= iid < n && GoesTo(c, before, now, iid, level) :: Iprio(c, level, iid)
  }

  /** What external interrupts of the levels below may bring besides, through the cascade. */
  ghost function Spilled(c: Core, level: Privilege): set<nat>
    requires CoreOk(c)
  {
    match level
    case Machine => {0, Iprio(c, Machine, S_EXTERNAL)}
    case Supervisor => {0, Iprio(c, Supervisor, VS_EXTERNAL), Iprio(c, Supervisor, S_GUEST_EXTERNAL)}
    case VirtualSupervisor => {}
  }

  ghost predicate SentAtMost(c: Core, c': Core, before: Pendings, now: Pendings, n: nat)
    requires CoreOk(c) && n <= 64 && PendingsOk(now, c.hvictl)
  {
    OnlyPendingGrows(c, c', c.GuestId(), {},
                     Sent(c, before, now, n, Machine) + Spilled(c, Machine),
                     Sent(c, before, now, n, Supervisor) + Spilled(c, Supervisor),
                     Sent(c, before, now, n, VirtualSupervisor) + {0})
  }

  /** Each level's file gained what went to the level, and nothing else but what the cascade brings. */
  ghost predicate ExactlyDelivered(c: Core, c': Core, before: Pendings, now: Pendings)
    requires CoreOk(c) && CoreOk(c') && PendingsOk(now, c.hvictl)
  {
    && SentAtMost(c, c', before, now, 64)
    && forall level :: Sent(c, before, now, 64, level) - {0} <= FileOf(c', level).eip
  }

  /** What routing major interrupt `iid` may do to the rest of the state. */
  ghost predicate Routed(c: Core, c': Core, iid: nat, bits: set<nat>)
    requires CoreOk(c) && iid < 64
  {
    OnlyPendingGrows(c, c', c.GuestId(), bits, MAdds(c, iid), SAdds(c, iid), VsAdds(c, iid))
  }

  lemma GrowsThenGrows(c: Core, c1: Core, c2: Core, guest: nat,
                       bits: set<nat>, mAdd: set<nat>, sAdd: set<nat>, vsAdd: set<nat>,
                       bits2: set<nat>, mAdd2: set<nat>, sAdd2: set<nat>, vsAdd2: set<nat>)
    requires OnlyPendingGrows(c, c1, guest, bits, mAdd, sAdd, vsAdd)
    requires OnlyPendingGrows(c1, c2, guest, bits2, mAdd2, sAdd2, vsAdd2)
    requires bits2 <= bits && mAdd2 <= mAdd && sAdd2 <= sAdd && vsAdd2 <= vsAdd
    ensures OnlyPendingGrows(c, c2, guest, bits, mAdd, sAdd, vsAdd)
  {
  }

  /** Where the cascade's own interrupts have no priority register. */
  lemma SmallAdds(c: Core, iid: nat)
    requires CoreOk(c) && Rank(iid) == 0
    ensures iid < 64
    ensures MAdds(c, iid) == {0, Iprio(c, Machine, S_EXTERNAL)}
    ensures SAdds(c, iid) == {0, Iprio(c, Supervisor, VS_EXTERNAL), Iprio(c, Supervisor, S_GUEST_EXTERNAL)}
    ensures VsAdds(c, iid) == {}
  {
  }

  /** Routing `iid2` after routing `iid` stays within what routing `iid` may do. */
  lemma RoutedThenRouted(c: Core, c1: Core, c2: Core, iid: nat, bits: set<nat>, iid2: nat)
    requires CoreOk(c) && CoreOk(c1) && iid < 64 && iid2 < 64
    requires Routed(c, c1, iid, bits) && Routed(c1, c2, iid2, {})
    requires iid2 == iid || Rank(iid2) == 0
    ensures Routed(c, c2, iid, bits)
  {
    if Rank(iid2) == 0 {
      SmallAdds(c1, iid2);
    }
    GrowsThenGrows(c, c1, c2, c.GuestId(), bits, MAdds(c, iid), SAdds(c, iid), VsAdds(c, iid),
                   {}, MAdds(c1, iid2), SAdds(c1, iid2), VsAdds(c1, iid2));
  }

  /** The summary register changes, a routing follows, then the VS external bit and vstopei. */
  lemma GuestSummaryRoutes(c: Core, c1: Core, c2: Core, c3: Core)
    requires CoreOk(c) && CoreOk(c1) && CoreOk(c2)
    requires c1 == c.(hgeip := c1.hgeip)
    requires Routed(c1, c2, S_GUEST_EXTERNAL, {})
    requires c3 == c2.(vstopei := c3.vstopei, clint := c2.clint.(mip := c3.clint.mip))
    requires forall i :: i != VS_EXTERNAL ==> (i in c3.clint.mip <==> i in c2.clint.mip)
    ensures Routed(c, c3, S_GUEST_EXTERNAL, {})
  {
    assert Routed(c, c1, S_GUEST_EXTERNAL, {});
    RoutedThenRouted(c, c1, c2, S_GUEST_EXTERNAL, {}, S_GUEST_EXTERNAL);
    assert Routed(c2, c3, S_GUEST_EXTERNAL, {});
    RoutedThenRouted(c, c2, c3, S_GUEST_EXTERNAL, {}, S_GUEST_EXTERNAL);
  }

  /** With the summary right, the VS external bit and vstopei complete the agreement. */
  lemma VsExternalSyncs(c: Core, c': Core)
    requires CoreOk(c) && FilesSynced(c)
    requires forall v :: v in c.hgeip <==> 1 <= v <= MAX_GUEST && Signals(c.vs[v - 1])
    requires S_GUEST_EXTERNAL in c.clint.mip <==> c.hgeip * c.hgeie != {}
    requires c' == c.(vstopei := c'.vstopei, clint := c.clint.(mip := c'.clint.mip))
    requires forall i :: i != VS_EXTERNAL ==> (i in c'.clint.mip <==> i in c.clint.mip)
    requires VS_EXTERNAL in c'.clint.mip <==> SignalsGuest(c')
    requires SignalsGuest(c') ==> 0 < c'.vstopei == NextIid(c'.vs[c'.GuestId()])
    ensures CoreOk(c') && FilesSynced(c') && GuestsSynced(c')
  {
  }

  /** Pending identities accumulate and nothing but pending state changes. */
  ghost predicate Accumulates(c: Core, c': Core) {
    && c' == c.(clint := c.clint.(mip := c'.clint.mip), hgeip := c'.hgeip,
                mtopei := c'.mtopei, stopei := c'.stopei, vstopei := c'.vstopei,
                m := c'.m, s := c'.s, vs := c'.vs)
    && c.m.eip <= c'.m.eip && c.s.eip <= c'.s.eip
    && |c'.vs| == |c.vs| && forall g :: 0 <= g < |c.vs| ==> c.vs[g].eip <= c'.vs[g].eip
  }

  lemma RoutingAccumulates(c: Core, c': Core, iid: nat, bits: set<nat>)
    requires CoreOk(c) && iid < 64 && Routed(c, c', iid, bits)
    ensures Accumulates(c, c')
  {
  }

  /** Routing changes nothing that decides what is delivered where, and under which number. */
  lemma RoutingIsFixed(c: Core, c': Core, before: Pendings, now: Pendings, iid: nat, level: Privilege)
    requires CoreOk(c) && CoreOk(c') && Accumulates(c, c') && iid < 64
    ensures GoesTo(c, before, now, iid, level) <==> GoesTo(c', before, now, iid, level)
    ensures (level.VirtualSupervisor? ==> IsVsIid(iid)) ==> Iprio(c, level, iid) == Iprio(c', level, iid)
    ensures Spilled(c, level) == Spilled(c', level)
  {
  }

  /** Delivery is not undone by later routing. */
  lemma StaysDelivered(c: Core, c1: Core, c2: Core, before: Pendings, now: Pendings, iid: nat)
    requires CoreOk(c) && CoreOk(c1) && CoreOk(c2) && iid < 64 && PendingsOk(now, c.hvictl)
    requires Accumulates(c, c1) && Accumulates(c1, c2)
    ensures Delivered(c, c1, before, now, iid) ==> Delivered(c, c2, before, now, iid)
    ensures Delivered(c1, c2, before, now, iid) ==> Delivered(c, c2, before, now, iid)
  {
    forall level ensures Delivered(c, c1, before, now, iid) || Delivered(c1, c2, before, now, iid) ==>
                           GoesTo(c, before, now, iid, level) ==> InFile(c, c2, iid, level)
    {
      RoutingIsFixed(c, c1, before, now, iid, level);
      if GoesTo(c, before, now, iid, level) && (level.VirtualSupervisor? ==> IsVsIid(iid)) {
        FileGrows(c1, c2, level);
      }
    }
  }

  lemma FileGrows(c: Core, c': Core, level: Privilege)
    requires CoreOk(c) && CoreOk(c') && Accumulates(c, c')
    ensures FileOf(c, level).eip <= FileOf(c', level).eip
  {
  }

  lemma AllStayDelivered(c: Core, c1: Core, c2: Core, before: Pendings, now: Pendings, n: nat)
    requires CoreOk(c) && CoreOk(c1) && CoreOk(c2) && n <= 64 && PendingsOk(now, c.hvictl)
    requires Accumulates(c, c1) && Accumulates(c1, c2)
    requires forall k :: 0 <= k < n ==> Delivered(c, c1, before, now, k)
    ensures forall k :: 0 <= k < n ==> Delivered(c, c2, before, now, k)
    ensures Accumulates(c, c2)
  {
    forall k | 0 <= k < n ensures Delivered(c, c2, before, now, k) {
      StaysDelivered(c, c1, c2, before, now, k);
    }
  }

  lemma GuestsStaySynced(c: Core, c': Core)
    requires GuestsSynced(c) && GuestsUntouched(c, c')
    requires c'.vgein == c.vgein && c'.hgeie == c.hgeie
    requires S_GUEST_EXTERNAL in c'.clint.mip <==> S_GUEST_EXTERNAL in c.clint.mip
    ensures GuestsSynced(c')
  {
  }

  /** What a write of `value` to the file of `target` may add to the file of `level`. */
  ghost function WriteAdds(c: Core, level: Privilege, target: Privilege, value: nat): set<nat>
    requires CoreOk(c)
  {
    if level == target then {0, value}
    else if target != VirtualSupervisor then {}
    else if level == Machine then MAdds(c, S_GUEST_EXTERNAL)
    else SAdds(c, S_GUEST_EXTERNAL)
  }

  lemma SmallWriteGrows(c: Core, c': Core, guest: nat, target: Privilege, value: nat)
    requires CoreOk(c) && guest < MAX_GUEST && target != VirtualSupervisor
    requires c' == c.(clint := c.clint.(mip := c'.clint.mip), mtopei := c'.mtopei, stopei := c'.stopei,
                      m := if target == Machine then SetEip(c.m, value) else c.m,
                      s := if target == Supervisor then SetEip(c.s, value) else c.s)
    requires SameOutside(c.clint.mip, c'.clint.mip, {})
    ensures OnlyPendingGrows(c, c', guest, {}, WriteAdds(c, Machine, target, value),
                             WriteAdds(c, Supervisor, target, value), WriteAdds(c, VirtualSupervisor, target, value))
  {
  }

  lemma GuestWriteGrows(c: Core, written: Core, c': Core, guest: nat, value: nat)
    requires CoreOk(c) && CoreOk(written) && guest < MAX_GUEST
    requires written == c.(vs := c.vs[guest := SetEip(c.vs[guest], value)])
    requires Routed(written, c', S_GUEST_EXTERNAL, {}) && c'.vs == written.vs
    ensures OnlyPendingGrows(c, c', guest, {}, MAdds(c, S_GUEST_EXTERNAL), SAdds(c, S_GUEST_EXTERNAL), {0, value})
  {
  }

  /** Delivering `iid` to its level is within what routing `iid` may do. */
  lemma DeliveryIsRouting(c: Core, c': Core, iid: nat, level: Privilege)
    requires CoreOk(c) && iid < 64 && (level.VirtualSupervisor? ==> IsVsIid(iid) && Rank(iid) == 1)
    requires
      var value := Iprio(c, level, iid);
      OnlyPendingGrows(c, c', c.GuestId(), {}, WriteAdds(c, Machine, level, value),
                       WriteAdds(c, Supervisor, level, value), WriteAdds(c, VirtualSupervisor, level, value))
    requires CoreOk(c')
    ensures Routed(c, c', iid, {})
  {
    SmallAdds(c, S_GUEST_EXTERNAL);
    forall g | 0 <= g < |c.vs|
      ensures Grown(c.vs[g], c'.vs[g], if g == c.GuestId() then VsAdds(c, iid) else {})
    {
      assert FileOk(c'.vs[g]);
    }
  }

  lemma DeliveryDone(c: Core, c': Core, before: Pendings, now: Pendings, iid: nat, to: Option<Privilege>)
    requires CoreOk(c) && CoreOk(c') && iid < 64 && PendingsOk(now, c.hvictl)
    requires forall level :: to == Some(level) <==> GoesTo(c, before, now, iid, level)
    requires to.Some? && to.value.VirtualSupervisor? ==> IsVsIid(iid)
    requires to.Some? ==> InFile(c, c', iid, to.value)
    ensures Delivered(c, c', before, now, iid)
  {
  }

  /** One delivery sends the number of `iid` where it goes, and nothing else but the spill. */
  lemma SentByOne(c: Core, c': Core, before: Pendings, now: Pendings, iid: nat, level: Privilege)
    requires CoreOk(c) && CoreOk(c') && iid < 64 && PendingsOk(now, c.hvictl)
    requires GoesTo(c, before, now, iid, level)
    requires
      var value := Iprio(c, level, iid);
      OnlyPendingGrows(c, c', c.GuestId(), {}, WriteAdds(c, Machine, level, value),
                       WriteAdds(c, Supervisor, level, value), WriteAdds(c, VirtualSupervisor, level, value))
    ensures Sends(c, c', before, now, iid)
  {
    SmallAdds(c, S_GUEST_EXTERNAL);
  }

  ghost function SendAdds(c: Core, before: Pendings, now: Pendings, iid: nat, level: Privilege): set<nat>
    requires CoreOk(c) && iid < 64 && PendingsOk(now, c.hvictl)
  {
    (if GoesTo(c, before, now, iid, level) then {Iprio(c, level, iid)} else {}) + Spilled(c, level) + {0}
  }

  ghost predicate Sends(c: Core, c': Core, before: Pendings, now: Pendings, iid: nat)
    requires CoreOk(c) && iid < 64 && PendingsOk(now, c.hvictl)
  {
    OnlyPendingGrows(c, c', c.GuestId(), {}, SendAdds(c, before, now, iid, Machine),
                     SendAdds(c, before, now, iid, Supervisor), SendAdds(c, before, now, iid, VirtualSupervisor))
  }

  lemma Widens(c: Core, c': Core, guest: nat, mAdd: set<nat>, sAdd: set<nat>, vsAdd: set<nat>,
               mAdd2: set<nat>, sAdd2: set<nat>, vsAdd2: set<nat>)
    requires OnlyPendingGrows(c, c', guest, {}, mAdd, sAdd, vsAdd)
    requires mAdd <= mAdd2 && sAdd <= sAdd2 && vsAdd <= vsAdd2
    ensures OnlyPendingGrows(c, c', guest, {}, mAdd2, sAdd2, vsAdd2)
  {
  }

  lemma SentGrows(c: Core, c1: Core, before: Pendings, now: Pendings, iid: nat, level: Privilege)
    requires CoreOk(c) && CoreOk(c1) && Accumulates(c, c1) && iid < 64 && PendingsOk(now, c.hvictl)
    ensures Sent(c, before, now, iid, level) <= Sent(c, before, now, iid + 1, level)
    ensures SendAdds(c1, before, now, iid, level) <= Sent(c, before, now, iid + 1, level) + Spilled(c, level) + {0}
  {
    RoutingIsFixed(c, c1, before, now, iid, level);
    if GoesTo(c, before, now, iid, level) {
      assert Iprio(c, level, iid) in Sent(c, before, now, iid + 1, level);
    }
  }

  /** The next delivery of the loop. */
  lemma SentThenSends(c: Core, c1: Core, c2: Core, before: Pendings, now: Pendings, iid: nat)
    requires CoreOk(c) && CoreOk(c1) && Accumulates(c, c1) && iid < 64 && PendingsOk(now, c.hvictl)
    requires SentAtMost(c, c1, before, now, iid) && Sends(c1, c2, before, now, iid)
    ensures SentAtMost(c, c2, before, now, iid + 1)
  {
    SentGrows(c, c1, before, now, iid, Machine);
    SentGrows(c, c1, before, now, iid, Supervisor);
    SentGrows(c, c1, before, now, iid, VirtualSupervisor);
    var m := Sent(c, before, now, iid + 1, Machine) + Spilled(c, Machine);
    var s := Sent(c, before, now, iid + 1, Supervisor) + Spilled(c, Supervisor);
    var vs := Sent(c, before, now, iid + 1, VirtualSupervisor) + {0};
    Widens(c, c1, c.GuestId(), Sent(c, before, now, iid, Machine) + Spilled(c, Machine),
           Sent(c, before, now, iid, Supervisor) + Spilled(c, Supervisor),
           Sent(c, before, now, iid, VirtualSupervisor) + {0}, m, s, vs);
    GrowsThenGrows(c, c1, c2, c.GuestId(), {}, m, s, vs, {}, SendAdds(c1, before, now, iid, Machine),
                   SendAdds(c1, before, now, iid, Supervisor), SendAdds(c1, before, now, iid, VirtualSupervisor));
  }

  /** The cascade after the loop brings nothing but the spill. */
  lemma SentThenCascades(c: Core, c1: Core, c2: Core, before: Pendings, now: Pendings)
    requires CoreOk(c) && CoreOk(c1) && CoreOk(c2) && Accumulates(c, c1) && PendingsOk(now, c.hvictl)
    requires SentAtMost(c, c1, before, now, 64) && Routed(c1, c2, S_GUEST_EXTERNAL, {})
    requires forall iid :: 0 <= iid < 64 ==> Delivered(c, c2, before, now, iid)
    ensures ExactlyDelivered(c, c2, before, now)
  {
    SmallAdds(c1, S_GUEST_EXTERNAL);
    RoutingIsFixed(c, c1, before, now, S_GUEST_EXTERNAL, Machine);
    RoutingIsFixed(c, c1, before, now, S_GUEST_EXTERNAL, Supervisor);
    GrowsThenGrows(c, c1, c2, c.GuestId(), {}, Sent(c, before, now, 64, Machine) + Spilled(c, Machine),
                   Sent(c, before, now, 64, Supervisor) + Spilled(c, Supervisor),
                   Sent(c, before, now, 64, VirtualSupervisor) + {0},
                   {}, Spilled(c1, Machine), Spilled(c1, Supervisor), {});
    forall level ensures Sent(c, before, now, 64, level) - {0} <= FileOf(c2, level).eip {
      forall number | number in Sent(c, before, now, 64, level) && number != 0
        ensures number in FileOf(c2, level).eip
      {
        var iid :| 0 <= iid < 64 && GoesTo(c, before, now, iid, level) && number == Iprio(c, level, iid);
        assert Delivered(c, c2, before, now, iid);
        InFileByNumber(c, c2, iid, level);
      }
    }
  }

  /** What a file gains comes from the level's own registers, of interrupts that go to the level. */
  lemma SentIsRegistered(c: Core, before: Pendings, now: Pendings, level: Privilege, v: nat)
    requires CoreOk(c) && PendingsOk(now, c.hvictl) && v != 0
    ensures v in Sent(c, before, now, 64, level) <==>
      exists iid :: 0 <= iid < 64 && GoesTo(c, before, now, iid, level) && Registered(c, level, iid, v)
  {
    forall iid | 0 <= iid < 64 && GoesTo(c, before, now, iid, level)
      ensures Iprio(c, level, iid) == v <==> Registered(c, level, iid, v)
    {
      IprioIsRegistered(c, level, iid, v);
    }
  }

  /** Cores that differ only in the priority registers of other levels, and of other guests. */
  ghost predicate SameOwnRegisters(c: Core, d: Core, level: Privilege)
    requires CoreOk(c) && CoreOk(d)
  {
    && d == c.(iprioM := d.iprioM, iprioS := d.iprioS, iprioVs := d.iprioVs)
    && match level
       case Machine => d.iprioM == c.iprioM
       case Supervisor => d.iprioS == c.iprioS
       case VirtualSupervisor => d.iprioVs[c.vgein] == c.iprioVs[c.vgein]
  }

  /** A level's file gains the same whatever the priority registers of other levels and guests hold. */
  lemma OwnRegistersDecide(c: Core, d: Core, before: Pendings, now: Pendings, level: Privilege)
    requires CoreOk(c) && CoreOk(d) && PendingsOk(now, c.hvictl) && SameOwnRegisters(c, d, level)
    ensures Sent(c, before, now, 64, level) == Sent(d, before, now, 64, level)
    ensures Spilled(c, level) == Spilled(d, level)
  {
    forall iid | 0 <= iid < 64 && (level.VirtualSupervisor? ==> IsVsIid(iid))
      ensures Iprio(c, level, iid) == Iprio(d, level, iid)
    {
    }
  }

  /** Which edges of a register write are lost.  An interrupt that begins to pend at a level and takes
      messages there, under a number in its register that nothing else brings to the level's file, is
      in the file afterwards exactly when it does not pend at a higher level as well. */
  lemma DeliveredUnlessHidden(c: Core, c': Core, before: Pendings, now: Pendings, iid: nat, level: Privilege,
                              number: nat)
    requires CoreOk(c) && CoreOk(c') && PendingsOk(now, c.hvictl) && ExactlyDelivered(c, c', before, now) && iid < 64
    requires BeginsAt(before, now, iid, level) && TakesMessages(c, iid, level)
    requires number != 0 && Registered(c, level, iid, number)
    requires number !in FileOf(c, level).eip && number !in Spilled(c, level)
    requires forall other :: 0 <= other < 64 && other != iid && GoesTo(c, before, now, other, level) ==>
               !Registered(c, level, other, number)
    ensures number in FileOf(c', level).eip <==> !HiddenAbove(now, iid, level)
  {
    SentIsRegistered(c, before, now, level, number);
    if HiddenAbove(now, iid, level) {
      assert number !in Sent(c, before, now, 64, level);
    } else {
      assert number in Sent(c, before, now, 64, level);
    }
  }

  /** Two register writes whose edge is lost: hvip raises 13 at VS while it is injected at S, and mvip
      raises 5 at S while the hardware raises it at M. */
  lemma HiddenEdges()
    ensures
      var none := Hvictl(false, 0);
      var c := Clint({}, {}, HIE_MASK, {}, {13}, {13}, {13}, {13}, {}, {13});
      var before, now := ComputePendings(c, none), ComputePendings(c.(hvip := {13}), none);
      ClintOk(c) && BeginsAt(before, now, 13, VirtualSupervisor) && HiddenAbove(now, 13, VirtualSupervisor)
    ensures
      var none := Hvictl(false, 0);
      var c := Clint({5}, {5}, HIE_MASK, {}, {5}, {}, {5}, {}, {}, {});
      var before, now := ComputePendings(c, none), ComputePendings(c.(mvip := {5}), none);
      ClintOk(c) && BeginsAt(before, now, 5, Supervisor) && HiddenAbove(now, 5, Supervisor)
  {
  }

  /** Changing a line that is not an external interrupt leaves everything in step. */
  lemma LineChange(c: Core, iid: nat, set_: bool)
    requires CoreOk(c) && FilesSynced(c) && iid < 64
    requires iid != S_EXTERNAL && iid != VS_EXTERNAL && iid != M_EXTERNAL
    ensures var written := c.(clint := WithBit(c.clint, iid, set_));
            && CoreOk(written) && FilesSynced(written) && PendingsOk(written.Pends(), written.hvictl)
            && (GuestsSynced(c) && iid != S_GUEST_EXTERNAL ==> GuestsSynced(written))
            && GuestsUntouched(c, written)
  {
    ComputedPendingsOk(WithBit(c.clint, iid, set_), c.hvictl);
    MipWriteKeeps(c, WithBit(c.clint, iid, set_).mip);
  }

  /** Everything in step depends on four bits of mip only. */
  lemma MipWriteKeeps(c: Core, mip: set<nat>)
    requires CoreOk(c)
    requires M_EXTERNAL in mip <==> M_EXTERNAL in c.clint.mip
    requires S_EXTERNAL in mip <==> S_EXTERNAL in c.clint.mip
    requires VS_EXTERNAL in mip <==> VS_EXTERNAL in c.clint.mip
    ensures var written := c.(clint := c.clint.(mip := mip));
            && CoreOk(written) && (FilesSynced(c) ==> FilesSynced(written)) && GuestsUntouched(c, written)
            && (GuestsSynced(c) && (S_GUEST_EXTERNAL in mip <==> S_GUEST_EXTERNAL in c.clint.mip) ==>
                  GuestsSynced(written))
  {
  }

  lemma LineChangeRouted(c: Core, c': Core, iid: nat, set_: bool)
    requires CoreOk(c) && CoreOk(c') && iid < 64 && iid != S_EXTERNAL && iid != VS_EXTERNAL && iid != M_EXTERNAL
    requires var written := c.(clint := WithBit(c.clint, iid, set_));
             CoreOk(written) && Routed(written, c', iid, {})
    ensures Routed(c, c', iid, {iid})
    ensures iid in MIE_MASK && iid != S_GUEST_EXTERNAL ==> (iid in c'.clint.mip <==> set_)
  {
  }

  /** An edge made by a hardware line is never hidden: a line feeds mip, which each interrupt shows
      at one level, and what is injected at another does not change with it. */
  lemma LineEdgeNotHidden(c: Clint, hvictl: Hvictl, iid: nat, set_: bool, level: Privilege)
    requires ClintOk(c)
    ensures var before, now := ComputePendings(c, hvictl), ComputePendings(WithBit(c, iid, set_), hvictl);
            BeginsAt(before, now, iid, level) ==> !HiddenAbove(now, iid, level)
  {
  }

  /** Every level at which the interrupt begins to pend has it in its file, if it takes messages. */
  ghost predicate AllDelivered(c: Core, c': Core, before: Pendings, now: Pendings, iid: nat)
    requires CoreOk(c) && CoreOk(c') && iid < 64 && PendingsOk(now, c.hvictl)
  {
    forall level :: BeginsAt(before, now, iid, level) && TakesMessages(c, iid, level) ==> InFile(c, c', iid, level)
  }

  lemma LineChangeDelivered(c: Core, written: Core, c': Core, iid: nat, set_: bool, now: Pendings)
    requires CoreOk(c) && CoreOk(c') && CoreOk(written) && iid < 64
    requires written == c.(clint := WithBit(c.clint, iid, set_))
    requires now == written.Pends() && PendingsOk(now, c.hvictl) && Delivered(written, c', c.Pends(), now, iid)
    ensures AllDelivered(c, c', c.Pends(), now, iid)
  {
    forall level | BeginsAt(c.Pends(), now, iid, level) && TakesMessages(c, iid, level)
      ensures InFile(c, c', iid, level)
    {
      LineEdgeNotHidden(c.clint, c.hvictl, iid, set_, level);
      MipDoesNotRoute(c, written, c.Pends(), now, iid, level);
    }
  }

  lemma MipDoesNotRoute(c: Core, c': Core, before: Pendings, now: Pendings, iid: nat, level: Privilege)
    requires CoreOk(c) && CoreOk(c') && c' == c.(clint := c.clint.(mip := c'.clint.mip)) && iid < 64
    ensures GoesTo(c, before, now, iid, level) <==> GoesTo(c', before, now, iid, level)
    ensures (level.VirtualSupervisor? ==> IsVsIid(iid)) ==> Iprio(c, level, iid) == Iprio(c', level, iid)
  {
  }

  /** A software write of the CLINT registers changes no hardware pending bit. */
  lemma ClintWriteStaysSynced(c: Core, clint: Clint)
    requires Synced(c) && ClintOk(clint) && clint.mip == c.clint.mip
    ensures Synced(c.(clint := clint))
  {
  }

  /** The two deliveries of a cascade together. */
  lemma SmallRoutes(c: Core, c1: Core, c2: Core)
    requires CoreOk(c) && CoreOk(c1) && Routed(c, c1, VS_EXTERNAL, {}) && Routed(c1, c2, S_EXTERNAL, {})
    ensures Routed(c, c2, S_GUEST_EXTERNAL, {})
  {
    SmallAdds(c, S_EXTERNAL);
    SmallAdds(c, VS_EXTERNAL);
    SmallAdds(c, S_GUEST_EXTERNAL);
    SmallAdds(c1, S_EXTERNAL);
    RoutedThenRouted(c, c1, c2, VS_EXTERNAL, {}, S_EXTERNAL);
  }

  // ---------------------------------------------------------------- the routing itself

  class AiaCore {
    var core: Core

    /** The state after reset, with given priority registers. */
    constructor (iprioM: seq<nat>, iprioS: seq<nat>, iprioVs: seq<seq<nat>>)
      requires IprioOk(iprioM, iprioS, iprioVs)
      ensures Synced(core) && core.vgein == 0 && core.clint.mip == {}
    {
      core := Core(Clint({}, {}, HIE_MASK, {}, {}, {}, {}, {}, {}, {}), Hvictl(false, 0),
                   {}, {}, 0, false, false, false, iprioM, iprioS, iprioVs, 0, 0, 0,
                   ResetFile, ResetFile, seq(MAX_GUEST, _ => ResetFile));
    }

    /** Sets or clears a hardware pending bit, if mip has it. */
    method HwWriteMip(iid: nat, set_: bool)
      modifies this
      ensures core == old(core).(clint := WithBit(old(core).clint, iid, set_))
    {
      var mask := MIE_MASK * {iid};
      core := core.(clint := core.clint.(mip := core.clint.mip - mask + (if set_ then mask else {})));
      assert core.clint.mip == WithBit(old(core).clint, iid, set_).mip;
    }

    method ComputeImsicPendingInterruptsM()
      requires FileOk(core.m)
      modifies this
      ensures core == old(core).(mtopei := core.mtopei, clint := old(core).clint.(mip := core.clint.mip))
      ensures forall i :: i != M_EXTERNAL ==> (i in core.clint.mip <==> i in old(core).clint.mip)
      ensures M_EXTERNAL in core.clint.mip <==> Signals(core.m)
      ensures core.mtopei == TopeiValue(core.m, core.nvM) % 4096
      ensures Signals(core.m) ==> 0 < core.mtopei == NextIid(core.m)
    {
      RefreshOk(Level(core.m, core.nvM, false, 0));
      HwWriteMip(M_EXTERNAL, Signals(core.m));
      core := core.(mtopei := TopeiValue(core.m, core.nvM) % 4096);
    }

    method ComputeImsicPendingInterruptsS()
      requires FileOk(core.s)
      modifies this
      ensures core == old(core).(stopei := core.stopei, clint := old(core).clint.(mip := core.clint.mip))
      ensures forall i :: i != S_EXTERNAL ==> (i in core.clint.mip <==> i in old(core).clint.mip)
      ensures S_EXTERNAL in core.clint.mip <==> Signals(core.s)
      ensures core.stopei == TopeiValue(core.s, core.nvS) % 4096
      ensures Signals(core.s) ==> 0 < core.stopei == NextIid(core.s)
    {
      RefreshOk(Level(core.s, core.nvS, false, 0));
      HwWriteMip(S_EXTERNAL, Signals(core.s));
      core := core.(stopei := TopeiValue(core.s, core.nvS) % 4096);
    }


    /** The guest summary register: one bit a guest, set when the guest's file signals. */
    method ComputeHgeip()
      requires |core.vs| == MAX_GUEST
      modifies this
      ensures core == old(core).(hgeip := core.hgeip)
      ensures forall v :: v in core.hgeip <==> 1 <= v <= MAX_GUEST && Signals(core.vs[v - 1])
    {
      var hgeip, i := {}, 0;
      while i < MAX_GUEST
        invariant i <= MAX_GUEST
        invariant forall v :: v in hgeip <==> 1 <= v <= i && Signals(core.vs[v - 1])
      {
        if Signals(core.vs[i]) {
          hgeip := hgeip + {i + 1};
        }
        i := i + 1;
      }
      core := core.(hgeip := hgeip);
    }

    /** The VS external interrupt of the connected guest; with none connected there is none. */
    method ComputeVsExternal()
      requires |core.vs| == MAX_GUEST && forall g :: 0 <= g < MAX_GUEST ==> FileOk(core.vs[g])
      modifies this
      ensures core == old(core).(vstopei := core.vstopei, clint := old(core).clint.(mip := core.clint.mip))
      ensures forall i :: i != VS_EXTERNAL ==> (i in core.clint.mip <==> i in old(core).clint.mip)
      ensures VS_EXTERNAL in core.clint.mip <==> SignalsGuest(core)
      ensures core.vstopei == if core.IsImsicConnected()
                              then TopeiValue(core.vs[core.GuestId()], core.nvVs) % 4096 else 0
      ensures SignalsGuest(core) ==> 0 < core.vstopei == NextIid(core.vs[core.GuestId()])
    {
      if core.IsImsicConnected() {
        var file := core.vs[core.GuestId()];
        RefreshOk(Level(file, core.nvVs, false, 0));
        HwWriteMip(VS_EXTERNAL, Signals(file));
        core := core.(vstopei := TopeiValue(file, core.nvVs) % 4096);
      } else {
        core := core.(vstopei := 0);
        HwWriteMip(VS_EXTERNAL, false);
      }
    }

    /** Recomputes every guest file's signal, then the VS external interrupt of the guest that
        is connected. */
    method ComputeImsicPendingInterruptsVs(ghost nesting: nat)
      requires CoreOk(core) && FilesSynced(core) && nesting <= 1
      modifies this
      ensures CoreOk(core) && FilesSynced(core) && GuestsSynced(core)
      ensures core.vs == old(core).vs && Routed(old(core), core, S_GUEST_EXTERNAL, {})
      decreases 1, 1
    {
      ComputeHgeip();
      ghost var c1 := core;
      RecalcSgeip(nesting);
      ghost var c2 := core;
      ComputeVsExternal();
      VsExternalSyncs(c2, core);
      GuestSummaryRoutes(old(core), c1, c2, core);
    }

    method RecalcSgeip(ghost nesting: nat)
      requires CoreOk(core) && FilesSynced(core) && nesting <= 1
      modifies this
      ensures CoreOk(core) && FilesSynced(core)
      ensures S_GUEST_EXTERNAL in core.clint.mip <==> core.hgeip * core.hgeie != {}
      ensures GuestsUntouched(old(core), core) && Routed(old(core), core, S_GUEST_EXTERNAL, {})
      decreases 1, 0
    {
      var pending := core.hgeip * core.hgeie;
      ClintHwIrqRoute(S_GUEST_EXTERNAL, pending != {}, nesting);
    }

    /** A hardware interrupt line changes.  `nesting` counts the activations of this method that
        are still open; its precondition is the bound on their depth. */
    method ClintHwIrqRoute(iid: nat, set_: bool, ghost nesting: nat)
      requires CoreOk(core) && FilesSynced(core)
      requires iid < 64 && iid != S_EXTERNAL && iid != VS_EXTERNAL && iid != M_EXTERNAL
      requires nesting + Rank(iid) <= 1
      requires Rank(iid) == 1 ==> GuestsSynced(core)
      modifies this
      ensures CoreOk(core) && FilesSynced(core) && Routed(old(core), core, iid, {iid})
      ensures iid in MIE_MASK ==> (iid in core.clint.mip <==> set_)
      ensures Rank(iid) == 1 ==> GuestsSynced(core)
      ensures Rank(iid) == 0 ==> GuestsUntouched(old(core), core)
      ensures var now := ComputePendings(WithBit(old(core).clint, iid, set_), old(core).hvictl);
              PendingsOk(now, old(core).hvictl) && AllDelivered(old(core), core, old(core).Pends(), now, iid)
      decreases Rank(iid), 9
    {
      var before := core.Pends();
      ComputedPendingsOk(core.clint, core.hvictl);
      LineChange(core, iid, set_);
      HwWriteMip(iid, set_);
      ghost var written := core;
      DeliverClintChangesToImsics(before, iid, nesting + 1);
      LineChangeRouted(old(core), core, iid, set_);
      LineChangeDelivered(old(core), written, core, iid, set_, written.Pends());
    }

    method DeliverClintChangesToImsics(before: Pendings, iid: nat, ghost nesting: nat)
      requires CoreOk(core) && FilesSynced(core) && iid < 64 && PendingsOk(before, core.hvictl)
      requires Rank(iid) == 1 ==> nesting <= 1 && GuestsSynced(core)
      modifies this
      ensures CoreOk(core) && FilesSynced(core) && Routed(old(core), core, iid, {})
      ensures Rank(iid) == 1 ==> GuestsSynced(core)
      ensures Rank(iid) == 0 ==> GuestsUntouched(old(core), core)
      ensures Rank(iid) == 0 ==> (S_GUEST_EXTERNAL in core.clint.mip <==> S_GUEST_EXTERNAL in old(core).clint.mip)
      ensures PendingsOk(old(core).Pends(), old(core).hvictl)
      ensures Delivered(old(core), core, before, old(core).Pends(), iid)
      decreases Rank(iid), 8
    {
      var now := core.Pends();
      ComputedPendingsOk(core.clint, core.hvictl);
      DeliverPendingToImsic(before, now, iid, nesting);
      ghost var delivered := core;
      CascadePendingsToImsics(now, nesting);
      RoutedThenRouted(old(core), delivered, core, iid, {}, S_GUEST_EXTERNAL);
      RoutingAccumulates(old(core), delivered, iid, {});
      RoutingAccumulates(delivered, core, S_GUEST_EXTERNAL, {});
      StaysDelivered(old(core), delivered, core, before, now, iid);
      if Rank(iid) == 1 {
        GuestsStaySynced(delivered, core);
      }
    }

    /** Undelegated VS and S external interrupts that began to pend go one level up. */
    method CascadePendingsToImsics(before: Pendings, ghost nesting: nat)
      requires CoreOk(core) && FilesSynced(core) && PendingsOk(before, core.hvictl)
      modifies this
      ensures CoreOk(core) && FilesSynced(core) && Routed(old(core), core, S_GUEST_EXTERNAL, {})
      ensures GuestsUntouched(old(core), core)
      ensures S_GUEST_EXTERNAL in core.clint.mip <==> S_GUEST_EXTERNAL in old(core).clint.mip
      decreases 0, 7
    {
      var pendings2 := core.Pends();
      ComputedPendingsOk(core.clint, core.hvictl);
      DeliverPendingToImsic(before, pendings2, VS_EXTERNAL, nesting);
      ghost var c1 := core;
      var pendings3 := core.Pends();
      ComputedPendingsOk(core.clint, core.hvictl);
      DeliverPendingToImsic(pendings2, pendings3, S_EXTERNAL, nesting);
      SmallRoutes(old(core), c1, core);
    }

    /** Delivers one interrupt that began to pend between two snapshots to the interrupt file of
        the level it pends at, when that level is nested-vectored. */
    method DeliverPendingToImsic(before: Pendings, now: Pendings, iid: nat, ghost nesting: nat)
      requires CoreOk(core) && FilesSynced(core) && iid < 64
      requires PendingsOk(before, core.hvictl) && PendingsOk(now, core.hvictl)
      requires Rank(iid) == 1 ==> nesting <= 1 && GuestsSynced(core)
      modifies this
      ensures CoreOk(core) && FilesSynced(core) && Routed(old(core), core, iid, {})
      ensures Rank(iid) == 1 ==> GuestsSynced(core)
      ensures Rank(iid) == 0 ==> GuestsUntouched(old(core), core)
      ensures Rank(iid) == 0 ==> (S_GUEST_EXTERNAL in core.clint.mip <==> S_GUEST_EXTERNAL in old(core).clint.mip)
      ensures Delivered(old(core), core, before, now, iid) && Sends(old(core), core, before, now, iid)
      decreases Rank(iid), 4
    {
      var to := DeliveryLevel(before, now, iid);
      if to.Some? {
        DeliverTo(to.value, iid, nesting);
        SentByOne(old(core), core, before, now, iid, to.value);
      }
      DeliveryDone(old(core), core, before, now, iid, to);
    }

    method DeliverTo(level: Privilege, iid: nat, ghost nesting: nat)
      requires CoreOk(core) && FilesSynced(core) && iid < 64
      requires level == VirtualSupervisor ==> IsVsIid(iid) && Rank(iid) == 1
      requires Rank(iid) == 1 ==> nesting <= 1 && GuestsSynced(core)
      modifies this
      ensures CoreOk(core) && FilesSynced(core) && Routed(old(core), core, iid, {})
      ensures Rank(iid) == 1 ==> GuestsSynced(core)
      ensures Rank(iid) == 0 ==> GuestsUntouched(old(core), core)
      ensures Rank(iid) == 0 ==> (S_GUEST_EXTERNAL in core.clint.mip <==> S_GUEST_EXTERNAL in old(core).clint.mip)
      ensures InFile(old(core), core, iid, level)
      ensures var value := Iprio(old(core), level, iid);
              OnlyPendingGrows(old(core), core, old(core).GuestId(), {}, WriteAdds(old(core), Machine, level, value),
                               WriteAdds(old(core), Supervisor, level, value),
                               WriteAdds(old(core), VirtualSupervisor, level, value))
      decreases Rank(iid), 3
    {
      var minor := Iprio(core, level, iid);
      RouteImsicWrite(level, core.GuestId(), minor, nesting);
      InFileByNumber(old(core), core, iid, level);
      DeliveryIsRouting(old(core), core, iid, level);
      if Rank(iid) == 1 && level != VirtualSupervisor {
        GuestsStaySynced(old(core), core);
      }
    }

    /** The level an interrupt that began to pend is delivered to; the three assertions are the
        source's own, on an edge that is not the level's own external interrupt. */
    method DeliveryLevel(before: Pendings, now: Pendings, iid: nat) returns (to: Option<Privilege>)
      requires PendingsOk(before, core.hvictl) && PendingsOk(now, core.hvictl)
      ensures forall level :: to == Some(level) <==> GoesTo(core, before, now, iid, level)
      ensures to == Some(VirtualSupervisor) ==> IsVsIid(iid) && Rank(iid) == 1
    {
      var level, edge;
      if iid in now.m {
        level, edge := Machine, iid !in before.m;
      } else if iid in now.s {
        level, edge := Supervisor, iid !in before.s;
      } else if iid in now.vs {
        level, edge := VirtualSupervisor, iid !in before.vs;
      } else {
        return None;
      }
      if !edge || iid == ExternalIid(level) {
        return None;
      }
      assert iid != M_EXTERNAL;
      assert iid == S_EXTERNAL ==> level == Machine;
      assert iid == VS_EXTERNAL ==> level == Supervisor;
      if !core.IsNestedVectored(level) {
        return None;
      }
      if level == VirtualSupervisor && !core.IsImsicConnected() {
        return None;
      }
      to := Some(level);
    }

    /** A write of an identity to an interrupt file, from a device or from the routing above. */
    method RouteImsicWrite(target: Privilege, guest: nat, value: nat, ghost nesting: nat)
      requires CoreOk(core) && FilesSynced(core) && value < IMSIC_MAX_IRQS && guest < MAX_GUEST
      requires target == VirtualSupervisor ==> nesting <= 1
      modifies this
      ensures CoreOk(core) && FilesSynced(core)
      ensures value == 0 ==> core == old(core)
      ensures OnlyPendingGrows(old(core), core, guest, {}, WriteAdds(old(core), Machine, target, value),
                               WriteAdds(old(core), Supervisor, target, value),
                               WriteAdds(old(core), VirtualSupervisor, target, value))
      ensures target == Machine ==> core.m == SetEip(old(core).m, value) && core.s == old(core).s
      ensures target == Supervisor ==> core.s == SetEip(old(core).s, value) && core.m == old(core).m
      ensures target == VirtualSupervisor ==>
                core.vs == old(core).vs[guest := SetEip(old(core).vs[guest], value)]
      ensures target == VirtualSupervisor && value != 0 ==> GuestsSynced(core)
      ensures target != VirtualSupervisor ==> GuestsUntouched(old(core), core)
      ensures target != VirtualSupervisor ==>
                (S_GUEST_EXTERNAL in core.clint.mip <==> S_GUEST_EXTERNAL in old(core).clint.mip)
      decreases if target == VirtualSupervisor then 1 else 0, 2
    {
      if value == 0 {
        return;
      }
      match target
      case Machine =>
        RouteToM(guest, value);
      case Supervisor =>
        RouteToS(guest, value);
      case VirtualSupervisor =>
        core := core.(vs := core.vs[guest := SetEip(core.vs[guest], value)]);
        ghost var written := core;
        ComputeImsicPendingInterruptsVs(nesting);
        GuestWriteGrows(old(core), written, core, guest, value);
    }

    method RouteToM(ghost guest: nat, value: nat)
      requires CoreOk(core) && FilesSynced(core) && 0 < value < IMSIC_MAX_IRQS && guest < MAX_GUEST
      modifies this
      ensures CoreOk(core) && FilesSynced(core) && GuestsUntouched(old(core), core)
      ensures core.m == SetEip(old(core).m, value) && core.s == old(core).s
      ensures S_GUEST_EXTERNAL in core.clint.mip <==> S_GUEST_EXTERNAL in old(core).clint.mip
      ensures OnlyPendingGrows(old(core), core, guest, {}, {0, value}, {}, {})
    {
      core := core.(m := SetEip(core.m, value));
      ComputeImsicPendingInterruptsM();
      SmallWriteGrows(old(core), core, guest, Machine, value);
    }

    method RouteToS(ghost guest: nat, value: nat)
      requires CoreOk(core) && FilesSynced(core) && 0 < value < IMSIC_MAX_IRQS && guest < MAX_GUEST
      modifies this
      ensures CoreOk(core) && FilesSynced(core) && GuestsUntouched(old(core), core)
      ensures core.s == SetEip(old(core).s, value) && core.m == old(core).m
      ensures S_GUEST_EXTERNAL in core.clint.mip <==> S_GUEST_EXTERNAL in old(core).clint.mip
      ensures OnlyPendingGrows(old(core), core, guest, {}, {}, {0, value}, {})
    {
      core := core.(s := SetEip(core.s, value));
      ComputeImsicPendingInterruptsS();
      SmallWriteGrows(old(core), core, guest, Supervisor, value);
    }

    // -------------------------------------------------------------- software accesses

    /** A software write of the CLINT registers: none of them can write a hardware pending bit.
        Afterwards everything is in step, and each level's file has gained the numbers of the
        interrupts that begin to pend at the level, take messages there, and are not hidden by pending
        at a higher level too; those that are hidden are lost.  Besides there is only what external
        interrupts of lower levels bring through the cascade. */
    method OnClintCsrWrite(clint: Clint)
      requires Synced(core) && ClintOk(clint) && clint.mip == core.clint.mip
      modifies this
      ensures Synced(core)
      ensures var written := old(core).(clint := clint);
              CoreOk(written) && PendingsOk(written.Pends(), written.hvictl)
              && ExactlyDelivered(written, core, old(core).Pends(), written.Pends())
    {
      var before := core.Pends();
      ComputedPendingsOk(core.clint, core.hvictl);
      ClintWriteStaysSynced(core, clint);
      core := core.(clint := clint);
      DeliverAllClintChangesToImsics(before);
    }

    /** Delivers every interrupt that began to pend since a snapshot, then the cascade. */
    method DeliverAllClintChangesToImsics(before: Pendings)
      requires Synced(core) && PendingsOk(before, core.hvictl)
      modifies this
      ensures Synced(core)
      ensures PendingsOk(old(core).Pends(), old(core).hvictl)
              && ExactlyDelivered(old(core), core, before, old(core).Pends())
    {
      var now := core.Pends();
      ComputedPendingsOk(core.clint, core.hvictl);
      var iid := 0;
      while iid < 64
        invariant iid <= 64 && Synced(core) && Accumulates(old(core), core)
        invariant forall k :: 0 <= k < iid ==> Delivered(old(core), core, before, now, k)
        invariant SentAtMost(old(core), core, before, now, iid)
      {
        DeliverNext(old(core), before, now, iid);
        iid := iid + 1;
      }
      FinishDelivery(old(core), before, now);
    }

    /** The cascade after the delivery loop. */
    method FinishDelivery(ghost written: Core, before: Pendings, now: Pendings)
      requires CoreOk(written) && Synced(core) && Accumulates(written, core)
      requires PendingsOk(before, written.hvictl) && PendingsOk(now, written.hvictl)
      requires forall k :: 0 <= k < 64 ==> Delivered(written, core, before, now, k)
      requires SentAtMost(written, core, before, now, 64)
      modifies this
      ensures Synced(core) && ExactlyDelivered(written, core, before, now)
    {
      ghost var c := core;
      CascadePendingsToImsics(now, 0);
      RoutingAccumulates(c, core, S_GUEST_EXTERNAL, {});
      GuestsStaySynced(c, core);
      AllStayDelivered(written, c, core, before, now, 64);
      SentThenCascades(written, c, core, before, now);
    }

    /** One round of the delivery loop of a CLINT register write. */
    method DeliverNext(ghost written: Core, before: Pendings, now: Pendings, iid: nat)
      requires CoreOk(written) && Synced(core) && Accumulates(written, core) && iid < 64
      requires PendingsOk(before, written.hvictl) && PendingsOk(now, written.hvictl)
      requires forall k :: 0 <= k < iid ==> Delivered(written, core, before, now, k)
      requires SentAtMost(written, core, before, now, iid)
      modifies this
      ensures Synced(core) && Accumulates(written, core)
      ensures forall k :: 0 <= k < iid + 1 ==> Delivered(written, core, before, now, k)
      ensures SentAtMost(written, core, before, now, iid + 1)
    {
      ghost var c := core;
      DeliverPendingToImsic(before, now, iid, 0);
      RoutingAccumulates(c, core, iid, {});
      if Rank(iid) == 0 {
        GuestsStaySynced(c, core);
      }
      AllStayDelivered(written, c, core, before, now, iid);
      StaysDelivered(written, c, core, before, now, iid);
      SentThenSends(written, c, core, before, now, iid);
    }

    /** A write of the guest external interrupt enables. */
    method WriteHgeie(value: set<nat>)
      requires Synced(core)
      modifies this
      ensures Synced(core) && core.hgeie == value && core.vs == old(core).vs && core.hgeip == old(core).hgeip
    {
      core := core.(hgeie := value);
      RecalcSgeip(0);
    }

    /** Another guest's file is connected, or none. */
    method SwitchGuest(vgein: nat)
      requires Synced(core) && vgein <= MAX_GUEST
      modifies this
      ensures Synced(core) && core.vgein == vgein && core.vs == old(core).vs
      ensures VS_EXTERNAL in core.clint.mip <==> vgein != 0 && Signals(core.vs[vgein - 1])
      ensures vgein != 0 && Signals(core.vs[vgein - 1]) ==> core.vstopei == NextIid(core.vs[vgein - 1])
    {
      core := core.(vgein := vgein);
      ComputeImsicPendingInterruptsVs(0);
    }

    /** A trap-vector write changes a level's mode; the signals do not depend on it. */
    method WriteXtvec(level: Privilege, nestedVectored: bool)
      requires Synced(core)
      modifies this
      ensures Synced(core) && core.IsNestedVectored(level) == nestedVectored
    {
      match level
      case Machine => core := core.(nvM := nestedVectored);
      case Supervisor => core := core.(nvS := nestedVectored);
      case VirtualSupervisor => core := core.(nvVs := nestedVectored);
    }

    /** A claim, a completion or an indirect register write turned a level's file into `file`. */
    method UpdateFile(level: Privilege, guest: nat, file: File)
      requires Synced(core) && FileOk(file) && guest < MAX_GUEST
      modifies this
      ensures Synced(core)
      ensures level == Machine ==> core.m == file && core.s == old(core).s && core.vs == old(core).vs
      ensures level == Supervisor ==> core.s == file && core.m == old(core).m && core.vs == old(core).vs
      ensures level == VirtualSupervisor ==> core.vs == old(core).vs[guest := file]
    {
      match level
      case Machine =>
        core := core.(m := file);
        ComputeImsicPendingInterruptsM();
      case Supervisor =>
        core := core.(s := file);
        ComputeImsicPendingInterruptsS();
      case VirtualSupervisor =>
        core := core.(vs := core.vs[guest := file]);
        ComputeImsicPendingInterruptsVs(0);
    }
  }
}
