/** The interrupt-pending and interrupt-enable registers of the core and how a bit is routed to a
    level: delegated, injected, or masked.  A 64-bit register is the set of its set bits. */
module AiaRouting {

  // Major interrupt identities.
  const S_SOFTWARE: nat := 1
  const VS_SOFTWARE: nat := 2
  const M_SOFTWARE: nat := 3
  const S_TIMER: nat := 5
  const VS_TIMER: nat := 6
  const M_TIMER: nat := 7
  const S_EXTERNAL: nat := 9
  const VS_EXTERNAL: nat := 10
  const M_EXTERNAL: nat := 11
  const S_GUEST_EXTERNAL: nat := 12

  const SIE_MASK: set<nat> := {S_SOFTWARE, S_TIMER, S_EXTERNAL}
  const HIE_MASK: set<nat> := {S_GUEST_EXTERNAL, VS_SOFTWARE, VS_TIMER, VS_EXTERNAL}
  const MIE_MASK: set<nat> := {M_SOFTWARE, M_TIMER, M_EXTERNAL} + SIE_MASK + HIE_MASK
  const VS_MASK: set<nat> := {VS_SOFTWARE, VS_TIMER, VS_EXTERNAL}
  const NON_LEVELED_MASK: set<nat> := {13, 17, 35, 43, 48}

  predicate IsLeveled(iid: nat) { iid <= M_EXTERNAL }

  datatype Clint = Clint(
    mip: set<nat>, mie: set<nat>, mideleg: set<nat>, hideleg: set<nat>,
    mvien: set<nat>, mvip: set<nat>, sShadow: set<nat>,
    hvien: set<nat>, hvip: set<nat>, vsShadow: set<nat>)

  datatype Masks = Masks(delegated: set<nat>, injected: set<nat>)

  datatype Pendings = Pendings(m: set<nat>, s: set<nat>, vs: set<nat>)

  /** What the checked writes of these registers keep. */
  predicate ClintOk(c: Clint) {
    && HIE_MASK <= c.mideleg <= SIE_MASK + HIE_MASK
    && c.hideleg <= VS_MASK
    && c.mvien <= NON_LEVELED_MASK + SIE_MASK
    && c.hvien <= NON_LEVELED_MASK
  }

  // ---------------------------------------------------------------- routed views

  function SRouteMasks(c: Clint): Masks {
    Masks(c.mideleg, c.mvien - c.mideleg)
  }

  function ReadHideleg(c: Clint): set<nat> {
    c.hideleg * VS_MASK * (SRouteMasks(c).delegated + SRouteMasks(c).injected)
  }

  function VsRouteMasks(c: Clint): Masks {
    Masks(ReadHideleg(c), c.hvien - ReadHideleg(c))
  }

  function ReadMip(c: Clint): set<nat> {
    (c.mip + c.hvip * VS_MASK) * MIE_MASK
  }

  function ReadHip(c: Clint): set<nat> { ReadMip(c) * HIE_MASK }

  function ReadHie(c: Clint): set<nat> { c.mie * HIE_MASK }

  function ReadSip(c: Clint): set<nat> {
    var masks := SRouteMasks(c);
    (masks.delegated * ReadMip(c) + masks.injected * c.mvip) * (NON_LEVELED_MASK + SIE_MASK)
  }

  function ReadSie(c: Clint): set<nat> {
    var masks := SRouteMasks(c);
    (masks.delegated * c.mie + masks.injected * c.sShadow) * (NON_LEVELED_MASK + SIE_MASK)
  }

  function NonLeveled(bits: set<nat>): set<nat> { set i | i in bits && !IsLeveled(i) }

  function Leveled(bits: set<nat>): set<nat> { set i | i in bits && IsLeveled(i) }

  function ReadVsip(c: Clint): set<nat> {
    var masks := VsRouteMasks(c);
    (masks.delegated * (NonLeveled(ReadSip(c)) + Leveled(ReadHip(c))) + masks.injected * c.hvip)
      * (NON_LEVELED_MASK + VS_MASK)
  }

  function ReadVsie(c: Clint): set<nat> {
    var masks := VsRouteMasks(c);
    (masks.delegated * (NonLeveled(ReadSie(c)) + Leveled(ReadHie(c))) + masks.injected * c.vsShadow)
      * (NON_LEVELED_MASK + VS_MASK)
  }

  /** VS interrupts shown at the S positions, as a VS-level view shows them. */
  function MToVsBits(bits: set<nat>): set<nat> {
    (set i | i in bits && i in VS_MASK :: i - 1) + NonLeveled(bits)
  }

  function VsToMBits(bits: set<nat>): set<nat> {
    (set i | i in bits && i in SIE_MASK :: i + 1) + NonLeveled(bits)
  }

  /** The hypervisor's virtual-interrupt control register. */
  datatype Hvictl = Hvictl(vti: bool, iid: nat) {
    predicate IsLocalInjected() { vti && iid != S_EXTERNAL }
  }

  datatype Option<T> = None | Some(value: T)

  function TransformSToVs(iid: nat): Option<nat> {
    if iid == S_EXTERNAL then Some(VS_EXTERNAL)
    else if iid == S_TIMER then Some(VS_TIMER)
    else if iid == S_SOFTWARE then Some(VS_SOFTWARE)
    else if iid > M_EXTERNAL then Some(iid)
    else None
  }

  /** The identities that may pend at VS level. */
  predicate IsVsIid(iid: nat) { iid in VS_MASK || iid > M_EXTERNAL }

  function TransformVsToS(iid: nat): nat
    requires IsVsIid(iid)
  {
    if iid == VS_EXTERNAL then S_EXTERNAL
    else if iid == VS_TIMER then S_TIMER
    else if iid == VS_SOFTWARE then S_SOFTWARE
    else iid
  }

  /** The VS and S numberings of the virtual interrupts correspond one to one. */
  lemma TransformsInverse(vs: nat, s: nat)
    ensures IsVsIid(vs) ==> TransformSToVs(TransformVsToS(vs)) == Some(vs)
    ensures TransformSToVs(s).Some? ==>
              IsVsIid(TransformSToVs(s).value) && TransformVsToS(TransformSToVs(s).value) == s
    ensures s in SIE_MASK ==> TransformSToVs(s) == Some(s + 1)
    ensures s > M_EXTERNAL ==> TransformSToVs(s) == Some(s)
    ensures s <= M_EXTERNAL && s !in SIE_MASK ==> TransformSToVs(s) == None
  {
  }

  /** The pending and enabled interrupts of each level. */
  function ComputePendings(c: Clint, hvictl: Hvictl): Pendings {
    var m := c.mie * c.mip - c.mideleg * (SIE_MASK + HIE_MASK);
    var s := ReadSip(c) * ReadSie(c) + ReadHip(c) * ReadHie(c) - ReadHideleg(c);
    var vs := ReadVsip(c) * ReadVsie(c);
    var vs' :=
      if hvictl.IsLocalInjected() then
        vs * {VS_EXTERNAL} +
        (match TransformSToVs(hvictl.iid) case Some(iid) => {iid} case None => {})
      else vs;
    Pendings(m, s, vs')
  }

  /** Where no interrupt can show: the VS-level ones never at M, the M external one only there,
      the S external one never at VS, and the guest external one at VS only when injected. */
  ghost predicate PendingsOk(p: Pendings, hvictl: Hvictl) {
    && HIE_MASK !! p.m
    && M_EXTERNAL !in p.s && M_EXTERNAL !in p.vs
    && (forall i :: i in p.vs ==> IsVsIid(i))
    && (S_GUEST_EXTERNAL in p.vs <==> hvictl.vti && hvictl.iid == S_GUEST_EXTERNAL)
  }

  lemma ComputedPendingsOk(c: Clint, hvictl: Hvictl)
    requires ClintOk(c)
    ensures PendingsOk(ComputePendings(c, hvictl), hvictl)
  {
  }

  /** Where each standard interrupt shows: at M when it is not delegated; at VS when it is delegated
      twice; else at S, through mie when it is delegated and through mvip and the shadow enable when it
      is injected.  Only an injected one can show at two levels, M and S. */
  lemma PendsWhereRouted(c: Clint, iid: nat)
    requires ClintOk(c) && iid in MIE_MASK
    ensures
      var p := ComputePendings(c, Hvictl(false, 0));
      var raised := iid in c.mip || (iid in VS_MASK && iid in c.hvip);
      && (iid in p.m <==> iid !in c.mideleg && iid in c.mip && iid in c.mie)
      && (iid in p.vs <==> iid in c.hideleg && raised && iid in c.mie)
      && (iid in p.s <==>
            (iid !in c.hideleg &&
             (if iid in c.mideleg then raised && iid in c.mie
              else iid in c.mvien && iid in c.mvip && iid in c.sShadow)))
      && !(iid in p.vs && (iid in p.m || iid in p.s))
      && (iid in p.m && iid in p.s ==> iid in SRouteMasks(c).injected)
  {
  }

  /** Local interrupts, which the hardware does not raise: at S through mvip where mvien injects them,
      at VS through hvip where hvien does, never at M. */
  lemma LocalsPendWhereInjected(c: Clint, iid: nat)
    requires ClintOk(c) && iid in NON_LEVELED_MASK && iid !in c.mip
    ensures
      var p := ComputePendings(c, Hvictl(false, 0));
      && iid !in p.m
      && (iid in p.s <==> iid in c.mvien && iid in c.mvip && iid in c.sShadow)
      && (iid in p.vs <==> iid in c.hvien && iid in c.hvip && iid in c.vsShadow)
  {
  }

  /** With an interrupt injected through hvictl, VS sees that one, and its external interrupt. */
  lemma InjectionReplaces(c: Clint, hvictl: Hvictl, iid: nat)
    requires hvictl.vti && hvictl.iid != S_EXTERNAL
    ensures
      var p, plain := ComputePendings(c, hvictl), ComputePendings(c, Hvictl(false, 0));
      && p.m == plain.m && p.s == plain.s
      && (iid in p.vs <==> (iid == VS_EXTERNAL && iid in plain.vs) || TransformSToVs(hvictl.iid) == Some(iid))
  {
  }
}
