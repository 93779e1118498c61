/** The supervisor protection unit: the search over its entries, and the region of the last allowed
    access of each mode and type that it remembers. */
module Spmp {
  import opened MemoryAccess
  import opened SpmpSpec

  datatype CacheEntry = CacheEntry(region: Region, valid: bool)

  /** Passed and paged accesses return; a refused one raises the page-fault code of its type. */
  datatype Result = Pass | Paged | Trap(code: nat, addr: nat)

  datatype Matching = Yes | No | Partial

  class GenericSpmp {
    var config: Config
    var paged: bool                     // satp.mode
    var prv: nat
    var sum: bool
    const cache: array2<CacheEntry>
    ghost var revoked: bool             // a remembered region may be refused to its mode by now

    constructor (c: Config, isPaged: bool, privilege: nat, sumBit: bool)
      requires ConfigOk(c)
      ensures Valid() && fresh(cache) && !revoked
      ensures config == c && paged == isPaged && prv == privilege && sum == sumBit
    {
      config, paged, prv, sum := c, isPaged, privilege, sumBit;
      cache := new CacheEntry[4, 3]((i, j) => CacheEntry(Region(0, 0), false));
      revoked := false;
    }

    /** A remembered region is that of an active entry, and while nothing is revoked the entry
        permits accesses of its mode and type. */
    ghost predicate EntryOk(mode: nat, t: Access)
      reads this, cache
      requires cache.Length0 == 4 && cache.Length1 == 3 && mode < 4 && ConfigOk(config)
    {
      var e := cache[mode, AccessIndex(t)];
      e.valid ==> exists k :: 0 <= k < SPMP_ENTRIES && Remembers(k, e.region, t, mode)
    }

    ghost predicate Remembers(k: nat, r: Region, t: Access, mode: nat)
      reads this
      requires ConfigOk(config) && k < SPMP_ENTRIES
    {
      && r == RegionOf(config, k) && Active(config, k)
      && (!revoked ==> IsAccessAllowed(config.cfg[k], t, mode, sum))
    }

    ghost predicate Valid()
      reads this, cache
    {
      && cache.Length0 == 4 && cache.Length1 == 3 && ConfigOk(config)
      && forall mode: nat, t :: mode < 4 ==> EntryOk(mode, t)
    }

    method ClearSpmpCache()
      requires cache.Length0 == 4 && cache.Length1 == 3 && ConfigOk(config)
      modifies cache, this`revoked
      ensures Valid() && !revoked
      ensures forall i, j :: 0 <= i < 4 && 0 <= j < 3 ==> !cache[i, j].valid
    {
      forall i, j | 0 <= i < 4 && 0 <= j < 3 {
        cache[i, j] := CacheEntry(Region(0, 0), false);
      }
      revoked := false;
    }

    /** A write of a protection register clears the cache first. */
    method WriteProtection(c: Config)
      requires Valid() && ConfigOk(c)
      modifies this`config, this`revoked, cache
      ensures Valid() && config == c && !revoked
    {
      ClearSpmpCache();
      config := c;
    }

    /** A change of SUM does not clear it. */
    method WriteSum(sumBit: bool)
      requires Valid()
      modifies this`sum, this`revoked
      ensures Valid() && sum == sumBit && (revoked <==> old(revoked) || (old(sum) && !sumBit))
    {
      revoked := revoked || (sum && !sumBit);
      ghost var was := sum;
      sum := sumBit;
      forall mode: nat, t | mode < 4 ensures EntryOk(mode, t) {
        assert old(EntryOk(mode, t));
        if cache[mode, AccessIndex(t)].valid {
          var r := cache[mode, AccessIndex(t)].region;
          var k :| 0 <= k < SPMP_ENTRIES && old(Remembers(k, r, t, mode));
          SumOnlyGrants(config.cfg[k], t, mode);
          assert Remembers(k, r, t, mode);
        }
      }
    }

    /** Nor does a change of privilege, which the cache is indexed by only as the checked mode. */
    method SetPrivilege(privilege: nat)
      requires Valid()
      modifies this`prv
      ensures Valid() && prv == privilege
    {
      prv := privilege;
      forall mode: nat, t | mode < 4 ensures EntryOk(mode, t) {
        assert old(EntryOk(mode, t));
        if cache[mode, AccessIndex(t)].valid {
          var r := cache[mode, AccessIndex(t)].region;
          var k :| 0 <= k < SPMP_ENTRIES && old(Remembers(k, r, t, mode));
          assert Remembers(k, r, t, mode);
        }
      }
    }

    /** Does the remembered region of the mode and type hold the access? */
    predicate IsHit(mode: nat, x: Bytes, t: Access)
      reads this, cache
      requires cache.Length0 == 4 && cache.Length1 == 3 && x.size > 0
    {
      mode < 4 &&
      var e := cache[mode, AccessIndex(t)];
      e.valid && x.FirstWord() >= e.region.start && x.LastWord() < e.region.end
    }

    /** Compares the first and last word of an access with a region. */
    method CheckMatching(x: Bytes, r: Region) returns (m: Matching)
      requires x.WithinTwoWords() && WordAligned(r)
      ensures m == Yes <==> Covers(r, x)
      ensures m == No <==> !Touches(r, x)
    {
      assert x.Has(x.addr) && x.Has(x.addr + x.size - 1);
      var first, last := x.FirstWord(), x.LastWord();
      EndWords(x, r);
      if first >= r.start && last < r.end {
        return Yes;
      }
      if (first >= r.start && first < r.end) || (last >= r.start && last < r.end) {
        return Partial;
      }
      m := No;
    }

    /** Within two words the end words stand for all bytes. */
    static lemma EndWords(x: Bytes, r: Region)
      requires x.WithinTwoWords() && WordAligned(r)
      ensures Covers(r, x) <==> r.start <= x.FirstWord() && x.LastWord() < r.end
      ensures Touches(r, x) <==> r.Contains(x.FirstWord()) || r.Contains(x.LastWord())
    {
      var lo, hi := x.addr, x.addr + x.size - 1;
      assert x.Has(lo) && x.Has(hi);
      if r.Contains(x.FirstWord()) { assert r.Contains(lo); }
      if r.Contains(x.LastWord()) && hi < x.LastWord() + 4 {
        assert r.Contains(hi);
      }
    }

    /** Where the address register has its least significant zero bit. */
    method FindLowestZero(v: nat) returns (jj: nat)
      requires v < TWO_32 && TrailingOnes(v) <= 29
      ensures jj == TrailingOnes(v)
    {
      jj := 0;
      var rest := v;
      while jj < 32
        invariant jj <= 30 && jj + TrailingOnes(rest) == TrailingOnes(v)
        decreases 32 - jj
      {
        if rest % 2 == 0 {
          break;
        }
        rest := rest / 2;
        jj := jj + 1;
      }
    }

    /** The search: the lowest-numbered active entry that touches any byte decides; it fails when
        that entry does not cover them all. */
    method FindMatchingEntry(x: Bytes) returns (entry: int, region: Region)
      requires ConfigOk(config) && x.WithinTwoWords()
      ensures var f := FirstTouching(config, x, 0);
              && 0 <= f <= SPMP_ENTRIES
              && entry == (if f < SPMP_ENTRIES && !Covers(RegionOf(config, f), x) then -1 else f)
              && (0 <= entry < SPMP_ENTRIES ==> region == RegionOf(config, entry) && Active(config, entry))
    {
      FirstTouchingIsLeast(config, x, 0);
      region := Region(0, 0);
      var i := 0;
      while i < SPMP_ENTRIES
        invariant i <= SPMP_ENTRIES
        invariant FirstTouching(config, x, 0) == FirstTouching(config, x, i)
      {
        if config.cfg[i].a != Off && i in config.switch {
          region := EntryRegion(i);
          if region.start < region.end {
            RegionsAreAligned(config, i);
            var m := CheckMatching(x, region);
            if m == Yes {
              assert x.Has(x.addr) && Touches(region, x);
              return i, region;
            } else if m == Partial {
              return -1, region;
            }
          }
        }
        i := i + 1;
      }
      entry := SPMP_ENTRIES;
    }

    /** The bounds of one entry's region. */
    method EntryRegion(i: nat) returns (r: Region)
      requires ConfigOk(config) && i < SPMP_ENTRIES
      ensures r == RegionOf(config, i)
    {
      match config.cfg[i].a
      case Off =>
        r := Region(0, 0);
      case Tor =>
        r := Region(if i == 0 then 0 else config.addr[i - 1] * 4 % TWO_32, config.addr[i] * 4 % TWO_32);
      case Na4 =>
        var start := config.addr[i] * 4 % TWO_32;
        r := Region(start, start + 4);
      case Napot =>
        var jj := FindLowestZero(config.addr[i]);
        var start := 4 * ClearLow(config.addr[i], jj + 1);
        r := Region(start, start + 4 * Pow2(jj + 1));
    }

    /** The whole check.  Machine and virtual modes are not controlled.  A hit passes.  A miss gets the
        uncached decision, so the check differs from it exactly on hits that the decision denies; an
        allowed access that an entry decides is a hit from then on.  A hit in a right region is allowed.
        With active regions disjoint, those are the hits whose entry refuses the access at the
        current privilege and SUM; and there are none while nothing is revoked and the checked mode is
        the current privilege.  `revoked` is raised by clearing SUM, and by remembering a region for a
        mode that the entry refuses, which takes a privilege other than the checked mode. */
    method DoPhyAddressCheck(mode: nat, x: Bytes, t: Access) returns (r: Result, ghost hit: bool)
      requires Valid() && x.WithinTwoWords()
      requires mode in {USER, SUPERVISOR, MACHINE, VIRTUAL_USER, VIRTUAL_SUPERVISOR}
      modifies cache, this`revoked
      ensures Valid()
      ensures paged ==> r == Paged
      ensures !paged && mode !in {USER, SUPERVISOR} ==> r == Pass
      ensures !paged && mode in {USER, SUPERVISOR} ==>
        var verdict := Decide(config, x, t, mode, prv, sum);
        && (hit <==> old(IsHit(mode, x, t)))
        && (r == if hit || verdict == Allowed then Pass else Trap(FaultCode(t), x.addr))
        && (hit && Disjoint(config) ==>
              var f := FirstTouching(config, x, 0);
              && f < SPMP_ENTRIES && RegionOf(config, f) == old(cache[mode, AccessIndex(t)].region)
              && (verdict == Allowed <==> IsAccessAllowed(config.cfg[f], t, prv, sum)))
        && (hit && Issued(x, t) && IsRight(config, old(cache[mode, AccessIndex(t)].region), t, prv, sum) ==>
              verdict == Allowed)
        && (r == Pass && FirstTouching(config, x, 0) < SPMP_ENTRIES ==> IsHit(mode, x, t))
        && (Disjoint(config) && !old(revoked) && prv == mode ==>
              r == if verdict == Allowed then Pass else Trap(FaultCode(t), x.addr))
      ensures old(revoked) ==> revoked
      ensures prv == mode || mode !in {USER, SUPERVISOR} ==> revoked == old(revoked)
    {
      hit := false;
      if paged {
        return Paged, false;
      }
      if mode == VIRTUAL_SUPERVISOR || mode == VIRTUAL_USER {
        return Pass, false;
      }
      if mode == MACHINE {
        return Pass, false;
      }
      var cached := cache[mode, AccessIndex(t)];
      if cached.valid {
        if x.FirstWord() >= cached.region.start && x.LastWord() < cached.region.end {
          if Disjoint(config) {
            HitIsDecided(mode, x, t);
          }
          if Issued(x, t) && IsRight(config, cached.region, t, prv, sum) {
            HitInRightRegion(mode, x, t);
          }
          return Pass, true;
        }
      }
      r := CheckMiss(mode, x, t);
    }

    /** The lookup, and the remembering of an allowed access's region. */
    method CheckMiss(mode: nat, x: Bytes, t: Access) returns (r: Result)
      requires Valid() && x.WithinTwoWords() && (mode == USER || mode == SUPERVISOR)
      modifies cache, this`revoked
      ensures Valid()
      ensures r == if Decide(config, x, t, mode, prv, sum) == Allowed then Pass else Trap(FaultCode(t), x.addr)
      ensures r == Pass && FirstTouching(config, x, 0) < SPMP_ENTRIES ==> IsHit(mode, x, t)
      ensures old(revoked) ==> revoked
      ensures prv == mode ==> revoked == old(revoked)
    {
      FirstTouchingIsLeast(config, x, 0);
      var entry, region := FindMatchingEntry(x);
      if entry < 0 {
        return Trap(FaultCode(t), x.addr);
      }
      if mode == SUPERVISOR && entry >= SPMP_ENTRIES {
        return Pass;
      }
      if mode == USER && entry >= SPMP_ENTRIES {
        return Trap(FaultCode(t), x.addr);
      }
      if IsAccessAllowed(config.cfg[entry], t, prv, sum) {
        Remember(mode, t, region, entry);
        RegionsAreAligned(config, entry);
        EndWords(x, region);
        return Pass;
      }
      r := Trap(FaultCode(t), x.addr);
    }

    method Remember(mode: nat, t: Access, region: Region, ghost k: nat)
      requires Valid() && mode < 4 && k < SPMP_ENTRIES && region == RegionOf(config, k) && Active(config, k)
      modifies cache, this`revoked
      ensures Valid() && cache[mode, AccessIndex(t)] == CacheEntry(region, true)
      ensures revoked <==> old(revoked) || !IsAccessAllowed(config.cfg[k], t, mode, sum)
    {
      revoked := revoked || !IsAccessAllowed(config.cfg[k], t, mode, sum);
      cache[mode, AccessIndex(t)] := CacheEntry(region, true);
      assert Remembers(k, region, t, mode);
      forall mode': nat, t' | mode' < 4 ensures EntryOk(mode', t') {
        assert old(EntryOk(mode', t'));
        if (mode', t') != (mode, t) && cache[mode', AccessIndex(t')].valid {
          var r := cache[mode', AccessIndex(t')].region;
          var k' :| 0 <= k' < SPMP_ENTRIES && old(Remembers(k', r, t', mode'));
          assert Remembers(k', r, t', mode');
        }
      }
    }

    /** With active regions disjoint, the entry remembered is the entry that decides. */
    lemma HitIsDecided(mode: nat, x: Bytes, t: Access)
      requires Valid() && x.WithinTwoWords() && mode < 4 && Disjoint(config) && IsHit(mode, x, t)
      ensures var f := FirstTouching(config, x, 0);
        && f < SPMP_ENTRIES && RegionOf(config, f) == cache[mode, AccessIndex(t)].region
        && Covers(RegionOf(config, f), x)
        && (!revoked ==> IsAccessAllowed(config.cfg[f], t, mode, sum))
    {
      var e := cache[mode, AccessIndex(t)];
      assert EntryOk(mode, t);
      var k :| 0 <= k < SPMP_ENTRIES && Remembers(k, e.region, t, mode);
      RegionsAreAligned(config, k);
      EndWords(x, e.region);
      InsideIsDecided(config, k, x);
    }
  
    /** A region that is right admits only what the lookup allows. */
    lemma HitInRightRegion(mode: nat, x: Bytes, t: Access)
      requires Valid() && x.WithinTwoWords() && mode < 4 && IsHit(mode, x, t) && Issued(x, t)
      requires IsRight(config, cache[mode, AccessIndex(t)].region, t, prv, sum)
      ensures Decide(config, x, t, mode, prv, sum) == Allowed
    {
      var region := cache[mode, AccessIndex(t)].region;
      var k :| 0 <= k < SPMP_ENTRIES && Active(config, k) && RegionOf(config, k) == region
               && RegionIsRight(config, k, t, prv, sum);
      RegionsAreAligned(config, k);
      EndWords(x, region);
      RightRegionAllows(config, k, x, t, mode, prv, sum);
    }
  }

  /** The region is that of an active entry for which remembering it is right now. */
  ghost predicate IsRight(c: Config, r: Region, t: Access, prv: nat, sum: bool)
    requires |c.cfg| == SPMP_ENTRIES && |c.addr| == SPMP_ENTRIES
  {
    exists k :: 0 <= k < SPMP_ENTRIES && Active(c, k) && RegionOf(c, k) == r && RegionIsRight(c, k, t, prv, sum)
  }

  /** One four-byte region at address 0, readable for user mode. */
  function UserWord(): Config {
    Config(seq(SPMP_ENTRIES, i => Cfg(true, false, false, if i == 0 then Na4 else Off, false)),
           seq(SPMP_ENTRIES, i => 0), {0})
  }

  lemma UserWordDecides(mode: nat, prv: nat, sum: bool)
    ensures ConfigOk(UserWord()) && FirstTouching(UserWord(), Bytes(0, 4), 0) == 0
    ensures Decide(UserWord(), Bytes(0, 4), Load, mode, prv, sum) == Allowed <==> prv == SUPERVISOR ==> sum
  {
    assert Bytes(0, 4).Has(0) && RegionOf(UserWord(), 0) == Region(0, 4);
    assert Touches(RegionOf(UserWord(), 0), Bytes(0, 4));
    FirstTouchingFrom(UserWord(), Bytes(0, 4), 0, 0);
  }

  /** A supervisor's load that passes goes on passing after SUM is cleared, where the lookup denies it. */
  method StaleSum() returns (before: Result, after: Result)
    ensures before == after == Pass
    ensures Decide(UserWord(), Bytes(0, 4), Load, SUPERVISOR, SUPERVISOR, false) == Denied
  {
    UserWordDecides(SUPERVISOR, SUPERVISOR, true);
    UserWordDecides(SUPERVISOR, SUPERVISOR, false);
    var unit := new GenericSpmp(UserWord(), false, SUPERVISOR, true);
    ghost var hit;
    before, hit := unit.DoPhyAddressCheck(SUPERVISOR, Bytes(0, 4), Load);
    unit.WriteSum(false);
    after, hit := unit.DoPhyAddressCheck(SUPERVISOR, Bytes(0, 4), Load);
  }

  /** A load that machine mode makes as a supervisor's, through MPRV, passes, and so does the
      supervisor's own afterwards, where the lookup denies it. */
  method StalePrivilege() returns (before: Result, after: Result)
    ensures before == after == Pass
    ensures Decide(UserWord(), Bytes(0, 4), Load, SUPERVISOR, SUPERVISOR, false) == Denied
  {
    UserWordDecides(SUPERVISOR, MACHINE, false);
    UserWordDecides(SUPERVISOR, SUPERVISOR, false);
    var unit := new GenericSpmp(UserWord(), false, MACHINE, false);
    ghost var hit;
    before, hit := unit.DoPhyAddressCheck(SUPERVISOR, Bytes(0, 4), Load);
    unit.SetPrivilege(SUPERVISOR);
    after, hit := unit.DoPhyAddressCheck(SUPERVISOR, Bytes(0, 4), Load);
  }

  /** No two active regions overlap. */
  ghost predicate Disjoint(c: Config)
    requires |c.cfg| == SPMP_ENTRIES && |c.addr| == SPMP_ENTRIES
  {
    forall i, j :: 0 <= i < j < SPMP_ENTRIES && Active(c, i) && Active(c, j) ==>
      !Overlap(RegionOf(c, i), RegionOf(c, j))
  }
}
