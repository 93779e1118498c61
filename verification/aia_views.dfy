/** The aliased enable registers: sie, sieh, vsie and vsieh are views of mie and of the shadow
    enables, so that a write through one of them must reach exactly the bits it shows. */
module AiaViews {
  import opened AiaRouting

  /** One of the four registers: supervisor or virtual supervisor, low or high half. */
  datatype View = View(vs: bool, high: bool)

  /** A 32-bit register as the set of its set bits. */
  predicate IsWord(value: set<nat>) { forall i :: i in value ==> i < 32 }

  const WRITE_LO_MASK: set<nat> := set i: nat | i < 32
  const WRITE_HI_MASK: set<nat> := set i: nat | 32 <= i < 64

  function HalfMask(high: bool): set<nat> {
    if high then WRITE_HI_MASK else WRITE_LO_MASK
  }

  function ToReg(high: bool, value: set<nat>): set<nat> {
    if high then set i | i in value :: i + 32 else value
  }

  function FromReg(high: bool, reg: set<nat>): set<nat> {
    if high then set i | i in reg && 32 <= i < 64 :: i - 32 else reg * WRITE_LO_MASK
  }

  function Write64(reg: set<nat>, mask: set<nat>, value: set<nat>): set<nat> {
    reg - mask + value * mask
  }

  const SIE_WRITE_MASK: set<nat> := NON_LEVELED_MASK + SIE_MASK
  const VSIE_WRITE_MASK: set<nat> := NON_LEVELED_MASK + VS_MASK

  function Get(c: Clint, view: View): set<nat> {
    FromReg(view.high, if view.vs then MToVsBits(ReadVsie(c)) else ReadSie(c))
  }

  /** The interrupts that a write through the view may enable: delegated, then injected. */
  function Reach(c: Clint, view: View): Masks {
    var masks := if view.vs then VsRouteMasks(c) else SRouteMasks(c);
    var open := (if view.vs then VSIE_WRITE_MASK else SIE_WRITE_MASK) * HalfMask(view.high);
    Masks(masks.delegated * open, masks.injected * open)
  }

  /** The view's bits that can be written. */
  function Writable(c: Clint, view: View): set<nat> {
    var reach := Reach(c, view);
    FromReg(view.high, if view.vs then MToVsBits(reach.delegated + reach.injected)
                       else reach.delegated + reach.injected)
  }

  /** A write through the view: delegated bits go to mie, injected bits to the level's shadow. */
  function Put(c: Clint, view: View, value: set<nat>): Clint {
    var reach := Reach(c, view);
    if view.vs then
      var bits := VsToMBits(ToReg(view.high, value));
      c.(mie := Write64(c.mie, reach.delegated, bits), vsShadow := Write64(c.vsShadow, reach.injected, bits))
    else
      var bits := ToReg(view.high, value);
      c.(mie := Write64(c.mie, reach.delegated, bits), sShadow := Write64(c.sShadow, reach.injected, bits))
  }

  // ---------------------------------------------------------------- bit by bit

  /** Whether bit `i` of the view stands for an interrupt, and for which one. */
  predicate Stands(view: View, i: nat) {
    i < 32 && (view.vs && !view.high ==> i in SIE_MASK || !IsLeveled(i))
  }

  function Iid(view: View, i: nat): nat {
    if view.high then i + 32 else if view.vs && i in SIE_MASK then i + 1 else i
  }

  /** The register that holds the enables of injected interrupts of the view's level. */
  function Shadow(c: Clint, view: View): set<nat> {
    if view.vs then c.vsShadow else c.sShadow
  }

  lemma ViewBit(view: View, reg: set<nat>, i: nat)
    ensures i in FromReg(view.high, if view.vs then MToVsBits(reg) else reg)
            <==> Stands(view, i) && Iid(view, i) in reg
  {
  }

  lemma ValueBit(view: View, value: set<nat>, i: nat)
    requires IsWord(value) && Stands(view, i)
    ensures Iid(view, i) in HalfMask(view.high)
    ensures Iid(view, i) in (if view.vs then VsToMBits(ToReg(view.high, value)) else ToReg(view.high, value))
            <==> i in value
  {
  }

  /** The view's bit is set: mie has it where the interrupt is delegated, the shadow where injected. */
  predicate Shows(c: Clint, view: View, i: nat) {
    && Stands(view, i)
    && ((Iid(view, i) in Reach(c, view).delegated && Iid(view, i) in c.mie)
        || (Iid(view, i) in Reach(c, view).injected && Iid(view, i) in Shadow(c, view)))
  }

  lemma GetBit(c: Clint, view: View, i: nat)
    ensures i in Get(c, view) <==> Shows(c, view, i)
  {
    ViewBit(view, if view.vs then ReadVsie(c) else ReadSie(c), i);
  }

  lemma WritableBit(c: Clint, view: View, i: nat)
    ensures i in Writable(c, view) <==>
      Stands(view, i) && (Iid(view, i) in Reach(c, view).delegated || Iid(view, i) in Reach(c, view).injected)
  {
    ViewBit(view, Reach(c, view).delegated + Reach(c, view).injected, i);
  }

  /** Routing does not depend on what is enabled, and never both delegates and injects. */
  lemma RoutingStays(c: Clint, view: View, value: set<nat>, other: View)
    ensures Reach(Put(c, view, value), other) == Reach(c, other)
    ensures Reach(c, view).delegated !! Reach(c, view).injected
  {
  }

  // ---------------------------------------------------------------- the lens laws

  /** Reading back a write gives the value, masked to the delegated and injected bits. */
  lemma PutGet(c: Clint, view: View, value: set<nat>)
    requires IsWord(value)
    ensures Get(Put(c, view, value), view) == value * Writable(c, view)
  {
    RoutingStays(c, view, value, view);
    forall i ensures i in Get(Put(c, view, value), view) <==> i in value && i in Writable(c, view) {
      GetBit(Put(c, view, value), view, i);
      WritableBit(c, view, i);
      if Stands(view, i) {
        ValueBit(view, value, i);
      }
    }
  }

  /** Every interrupt a view can write stands at exactly one of its bits. */
  lemma ReachStands(c: Clint, view: View, iid: nat) returns (i: nat)
    requires iid in Reach(c, view).delegated || iid in Reach(c, view).injected
    ensures Stands(view, i) && Iid(view, i) == iid
  {
    i := if view.high then iid - 32 else if view.vs && iid in VS_MASK then iid - 1 else iid;
  }

  /** Writing what was read changes nothing. */
  lemma GetPut(c: Clint, view: View)
    ensures Put(c, view, Get(c, view)) == c
  {
    var value := Get(c, view);
    var bits := if view.vs then VsToMBits(ToReg(view.high, value)) else ToReg(view.high, value);
    RoutingStays(c, view, value, view);
    forall iid | iid in Reach(c, view).delegated || iid in Reach(c, view).injected
      ensures iid in bits <==> (if iid in Reach(c, view).delegated then iid in c.mie else iid in Shadow(c, view))
    {
      var i := ReachStands(c, view, iid);
      GetBit(c, view, i);
      ValueBit(view, value, i);
    }
    assert Write64(c.mie, Reach(c, view).delegated, bits) == c.mie;
    assert Write64(Shadow(c, view), Reach(c, view).injected, bits) == Shadow(c, view);
  }

  /** A later write through the same view hides an earlier one. */
  lemma PutPut(c: Clint, view: View, first: set<nat>, second: set<nat>)
    ensures Put(Put(c, view, first), view, second) == Put(c, view, second)
  {
  }

  /** The four views never overlap: a write through one shows in no other. */
  lemma ViewsAreDisjoint(c: Clint, view: View, value: set<nat>, other: View)
    requires view != other
    ensures Get(Put(c, view, value), other) == Get(c, other)
  {
    RoutingStays(c, view, value, other);
    forall i ensures i in Get(Put(c, view, value), other) <==> i in Get(c, other) {
      GetBit(Put(c, view, value), other, i);
      GetBit(c, other, i);
    }
  }

  /** What no write through a view touches: undelegated enables, the machine level's enables,
      the other level's shadow, and every pending and routing register. */
  lemma PutFrame(c: Clint, view: View, value: set<nat>, iid: nat)
    ensures var c' := Put(c, view, value);
      && c'.(mie := c.mie, sShadow := c.sShadow, vsShadow := c.vsShadow) == c
      && (view.vs ==> c'.sShadow == c.sShadow)
      && (!view.vs ==> c'.vsShadow == c.vsShadow)
      && (iid !in (if view.vs then c.hideleg else c.mideleg) ==> (iid in c'.mie <==> iid in c.mie))
  {
  }

  /** The VS positions and the M positions of the virtual interrupts correspond. */
  lemma ShiftRoundTrip(vs: set<nat>, m: set<nat>)
    ensures MToVsBits(VsToMBits(vs)) == vs * (SIE_MASK + NonLeveled(vs))
    ensures VsToMBits(MToVsBits(m)) == m * (VS_MASK + NonLeveled(m))
  {
  }

  // ---------------------------------------------------------------- the registers

  const HIE_WRITE_MASK: set<nat> := HIE_MASK

  class Xie {
    var clint: Clint

    constructor (clint: Clint)
      ensures this.clint == clint
    {
      this.clint := clint;
    }

    method SieRoutedWrite64(writeMask: set<nat>, value: set<nat>)
      modifies this
      ensures clint == old(clint).(
        mie := Write64(old(clint).mie, writeMask * SIE_WRITE_MASK * SRouteMasks(old(clint)).delegated, value),
        sShadow := Write64(old(clint).sShadow, writeMask * SIE_WRITE_MASK * SRouteMasks(old(clint)).injected, value))
    {
      var masks := SRouteMasks(clint);
      clint := clint.(mie := Write64(clint.mie, writeMask * SIE_WRITE_MASK * masks.delegated, value));
      clint := clint.(sShadow := Write64(clint.sShadow, writeMask * SIE_WRITE_MASK * masks.injected, value));
    }

    method HieRoutedWrite32(writeMask: set<nat>, value: set<nat>)
      modifies this
      ensures clint == old(clint).(
        mie := Write64(old(clint).mie, writeMask * HIE_WRITE_MASK * WRITE_LO_MASK, value))
    {
      clint := clint.(mie := Write64(clint.mie, writeMask * HIE_WRITE_MASK * WRITE_LO_MASK, value * WRITE_LO_MASK));
    }

    method CheckedWriteSie(high: bool, value: set<nat>)
      requires IsWord(value)
      modifies this
      ensures clint == Put(old(clint), View(false, high), value)
    {
      SieRoutedWrite64(HalfMask(high), ToReg(high, value));
      assert clint == Put(old(clint), View(false, high), value) by {
        var reach := Reach(old(clint), View(false, high));
        assert reach.delegated == HalfMask(high) * SIE_WRITE_MASK * SRouteMasks(old(clint)).delegated;
        assert reach.injected == HalfMask(high) * SIE_WRITE_MASK * SRouteMasks(old(clint)).injected;
      }
    }

    /** The delegated bits are offered to both aliases; only hie takes them. */
    method CheckedWriteVsie(high: bool, value: set<nat>)
      requires IsWord(value)
      modifies this
      ensures clint == Put(old(clint), View(true, high), value)
    {
      var bits := VsToMBits(ToReg(high, value));
      var masks := VsRouteMasks(clint);
      var delegatedMask := HalfMask(high) * VSIE_WRITE_MASK * masks.delegated;
      SieRoutedWrite64(delegatedMask, bits);
      assert clint == old(clint);
      HieRoutedWrite32(delegatedMask, bits);
      clint := clint.(vsShadow := Write64(clint.vsShadow, HalfMask(high) * VSIE_WRITE_MASK * masks.injected, bits));
      assert clint == Put(old(clint), View(true, high), value) by {
        var reach := Reach(old(clint), View(true, high));
        assert reach.delegated == delegatedMask;
        assert reach.injected == HalfMask(high) * VSIE_WRITE_MASK * masks.injected;
        assert delegatedMask * HIE_WRITE_MASK * WRITE_LO_MASK == delegatedMask;
      }
    }

    method CheckedReadSie(high: bool) returns (value: set<nat>)
      ensures value == Get(clint, View(false, high))
      ensures forall i :: i in value <==> Shows(clint, View(false, high), i)
    {
      value := FromReg(high, ReadSie(clint));
      forall i ensures i in value <==> Shows(clint, View(false, high), i) {
        GetBit(clint, View(false, high), i);
      }
    }

    method CheckedReadVsie(high: bool) returns (value: set<nat>)
      ensures value == Get(clint, View(true, high))
      ensures forall i :: i in value <==> Shows(clint, View(true, high), i)
    {
      value := FromReg(high, MToVsBits(ReadVsie(clint)));
      forall i ensures i in value <==> Shows(clint, View(true, high), i) {
        GetBit(clint, View(true, high), i);
      }
    }
  }
}
