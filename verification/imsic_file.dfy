/** One IMSIC interrupt file as the objects the core updates in place: arrays of 32-bit
    registers, the threshold register with its bitmap, and the hart-side pending bit and topei. */
module ImsicFile {
  import opened ImsicSpec

  const BITS_PER_CSR: nat := 32
  const EIP_EIE_ARR_SIZE: nat := IMSIC_MAX_IRQS / BITS_PER_CSR

  /** A 32-bit register, least significant bit first. */
  type Word = w: seq<bool> | |w| == 32 witness seq(32, _ => false)

  const ZeroWord: Word := seq(32, _ => false)

  function And(v: Word, w: Word): Word {
    seq(32, b requires 0 <= b < 32 => v[b] && w[b])
  }

  /** The identities whose bits are set in an array of registers. */
  ghost function Bits(words: seq<Word>): set<nat> {
    set i: nat | i < 32 * |words| && words[i / 32][i % 32]
  }

  ghost function WordBits(word: nat, w: Word): set<nat> {
    set i: nat | 32 * word <= i < 32 * word + 32 && w[i % 32]
  }

  /** The identities of the set bits of a bitmap, without position 0. */
  ghost function Marked(bitmap: seq<bool>): set<nat> {
    set i: nat | 0 < i < |bitmap| && bitmap[i]
  }

  /** The eithreshold register of a nested-vectored interrupt file. */
  class EiThreshold {
    var reg: nat
    var modeSnpsVectored: bool
    var thresholdTail: nat
    const thresholds: array<bool>

    constructor ()
      ensures Valid() && fresh(thresholds)
      ensures Value() == ResetThreshold && !modeSnpsVectored
    {
      reg := 0;
      modeSnpsVectored := false;
      thresholdTail := 0;
      thresholds := new bool[NV_MODE_MAX_VECTOR + 1](_ => false);
    }

    ghost predicate Valid() {
      thresholds.Length == NV_MODE_MAX_VECTOR + 1
    }

    ghost function Value(): Threshold
      reads this, thresholds
    {
      Threshold(reg, Marked(thresholds[..]), thresholdTail)
    }

    predicate IsRegUnstackable()
      reads this
    {
      reg == 0 || IsTailed(reg)
    }

    method TstackInsert(iid: nat)
      requires Valid() && 0 < iid < IMSIC_MAX_IRQS && reg < IMSIC_MAX_IRQS
      modifies this`reg, thresholds
      ensures Value() == Insert(old(Value()), iid)
    {
      if IsRegUnstackable() {
        reg := iid;
      } else {
        thresholds[reg] := true;
        assert Marked(thresholds[..]) == Marked(old(thresholds[..])) + {reg};
        if reg > iid {
          reg := iid;
        }
      }
    }

    method TstackPutTail(iid: nat)
      requires Valid()
      modifies this
      ensures Value() == PutTail(old(Value()), iid) && modeSnpsVectored == old(modeSnpsVectored)
    {
      thresholdTail := iid;
      if IsRegUnstackable() {
        reg := iid;
      }
    }

    method TstackPop()
      requires Valid()
      modifies this`reg, thresholds
      ensures Value() == Pop(old(Value()))
    {
      var i := 1;
      while i <= NV_MODE_MAX_VECTOR
        invariant 1 <= i <= NV_MODE_MAX_VECTOR + 1
        invariant forall k :: 1 <= k < i ==> !thresholds[k]
        invariant Value() == old(Value())
      {
        if thresholds[i] {
          LeastUnique(Marked(thresholds[..]), i);
          thresholds[i] := false;
          assert Marked(thresholds[..]) == Marked(old(thresholds[..])) - {i};
          reg := i;
          return;
        }
        i := i + 1;
      }
      assert Marked(thresholds[..]) == {};
      reg := thresholdTail;
    }

    /** A software write. */
    method CheckedWrite(val: nat)
      requires Valid() && reg < IMSIC_MAX_IRQS
      modifies this, thresholds
      ensures Value() == WriteThreshold(old(Value()), modeSnpsVectored, val)
      ensures modeSnpsVectored == old(modeSnpsVectored)
    {
      if val < IMSIC_MAX_IRQS {
        if modeSnpsVectored {
          if val == 0 {
            TstackPop();
          } else if IsTailed(val) {
            TstackPutTail(val);
          } else {
            TstackInsert(val);
          }
        } else {
          reg := val;
        }
      }
    }

    /** Interrupt entry. */
    method UpdateWithNewIrq(iid: nat)
      requires Valid() && 0 < iid < IMSIC_MAX_IRQS && reg < IMSIC_MAX_IRQS
      modifies this`reg, thresholds
      ensures Value() == if modeSnpsVectored then Enter(old(Value()), iid) else old(Value())
    {
      if modeSnpsVectored {
        TstackInsert(if IsTailed(iid) then NV_MODE_MAX_VECTOR else iid);
      }
    }
  }

  /** Position of the least set bit of a nonzero register. */
  method CountTrailingZeros(w: Word) returns (b: nat)
    requires true in w
    ensures b < 32 && w[b] && forall k :: 0 <= k < b ==> !w[k]
  {
    b := 0;
    while !w[b]
      invariant b < 32 && forall k :: 0 <= k < b ==> !w[k]
      decreases 32 - b
    {
      assert exists k :: b < k < 32 && w[k];
      b := b + 1;
    }
  }

  /** The interrupt file of machine level (supervisor level has the same shape). */
  class InterruptFile {
    const eip: array<Word>
    const eie: array<Word>
    const eithreshold: EiThreshold
    var delivery: bool
    var nv: bool
    var pending: bool
    var topei: nat

    constructor ()
      ensures Valid() && fresh(Repr())
      ensures Value() == ResetLevel
    {
      eip := new Word[EIP_EIE_ARR_SIZE](_ => ZeroWord);
      eie := new Word[EIP_EIE_ARR_SIZE](_ => ZeroWord);
      eithreshold := new EiThreshold();
      delivery, nv, pending, topei := false, false, false, 0;
      new;
      assert Bits(eip[..]) == {} && Bits(eie[..]) == {};
    }

    ghost function Repr(): set<object> {
      {this, eip, eie, eithreshold, eithreshold.thresholds}
    }

    ghost predicate Valid()
      reads Repr()
    {
      && eip.Length == EIP_EIE_ARR_SIZE && eie.Length == EIP_EIE_ARR_SIZE && eip != eie
      && eithreshold.Valid() && eithreshold.modeSnpsVectored == nv
      && LevelOk(Value())
    }

    ghost function Value(): Level
      reads Repr()
    {
      Level(File(Bits(eip[..]), Bits(eie[..]), delivery, eithreshold.Value()), nv, pending, topei)
    }

    /** Scans the registers for the least identity that is pending and enabled. */
    method ComputeImsicPending() returns (irqPending: bool, topeiVal: nat)
      requires eip.Length == EIP_EIE_ARR_SIZE && eie.Length == EIP_EIE_ARR_SIZE
      requires FileOk(Value().file)
      ensures irqPending == Signals(Value().file)
      ensures topeiVal == TopeiValue(Value().file, nv)
    {
      if !delivery {
        return false, 0;
      }
      var threshold := eithreshold.reg;
      if threshold == 0 {
        threshold := IMSIC_MAX_IRQS;
      }
      ghost var both := Value().file.eip * Value().file.eie;
      var activeIid := NO_IRQ_PENDING;
      var i := 0;
      while i < EIP_EIE_ARR_SIZE
        invariant i <= EIP_EIE_ARR_SIZE && activeIid == NO_IRQ_PENDING
        invariant forall k :: k in both ==> 32 * i <= k
      {
        var extPend := And(eip[i], eie[i]);
        if true in extPend {
          var b := CountTrailingZeros(extPend);
          activeIid := i * BITS_PER_CSR + b;
          assert activeIid / 32 == i && activeIid % 32 == b;
          assert activeIid in both;
          forall k | k in both ensures activeIid <= k {
            if k / 32 == i { assert extPend[k % 32]; }
          }
          LeastUnique(both, activeIid);
          break;
        }
        forall k | k in both ensures 32 * (i + 1) <= k {
          assert And(eip[k / 32], eie[k / 32])[k % 32];
        }
        i := i + 1;
      }
      if activeIid == NO_IRQ_PENDING {
        assert forall k :: k in both ==> k < IMSIC_MAX_IRQS;
        assert both == {};
      }
      irqPending := activeIid < threshold;
      topeiVal := if irqPending || nv then activeIid else 0;
    }

    method ComputeImsicPendingInterrupts()
      requires eip.Length == EIP_EIE_ARR_SIZE && eie.Length == EIP_EIE_ARR_SIZE && eip != eie
      requires eithreshold.Valid() && eithreshold.modeSnpsVectored == nv
      requires FileOk(Value().file)
      modifies this`pending, this`topei
      ensures Valid() && Value() == Refresh(old(Value()))
    {
      var irqPending, topeiVal := ComputeImsicPending();
      RefreshOk(Value());
      pending := irqPending;
      topei := topeiVal % 4096;
    }

    /** Sets or clears the pending bit of one identity; identity 0 is not supported. */
    method UpdateEipBit(iid: nat, set_: bool)
      requires eip.Length == EIP_EIE_ARR_SIZE && eip != eie
      requires iid < IMSIC_MAX_IRQS
      modifies eip
      ensures Bits(eip[..]) == if iid == 0 then old(Bits(eip[..]))
                               else if set_ then old(Bits(eip[..])) + {iid}
                               else old(Bits(eip[..])) - {iid}
    {
      if iid == 0 {
        return;
      }
      var idx, bit := iid / BITS_PER_CSR, iid % BITS_PER_CSR;
      eip[idx] := eip[idx][bit := set_];
      BitsOfUpdate(old(eip[..]), idx, eip[idx]);
      assert eip[..] == old(eip[..])[idx := eip[idx]];
      assert forall i :: 0 <= i < 32 && i != bit ==> eip[idx][i] == old(eip[..])[idx][i];
      forall i ensures i in Bits(eip[..]) <==> (if i == iid then set_ else i in old(Bits(eip[..]))) {
        if 0 <= i < IMSIC_MAX_IRQS && i / 32 == idx && i != iid { assert i % 32 != bit; }
      }
    }

    static lemma BitsOfUpdate(words: seq<Word>, k: nat, w: Word)
      requires k < |words|
      ensures Bits(words[k := w]) == (set i | i in Bits(words) && i / 32 != k) + WordBits(k, w)
    {
      assert Bits(words[k := w]) == (set i | i in Bits(words) && i / 32 != k) + WordBits(k, w);
    }

    /** A message-signalled interrupt arrives. */
    method RouteImsicWrite(iid: nat)
      requires Valid() && iid < IMSIC_MAX_IRQS
      modifies eip, this
      ensures Valid() && Value() == Step(old(Value()), Arrive(iid))
    {
      if iid == 0 {
        return;
      }
      UpdateEipBit(iid, true);
      ComputeImsicPendingInterrupts();
    }

    /** A topei write: completes the active nested-vectored interrupt or claims topei. */
    method ClaimTopeiInterrupt(markIrqHandled: bool)
      requires Valid() && (markIrqHandled ==> nv)
      modifies Repr()
      ensures Valid() && Value() == Step(old(Value()), if markIrqHandled then Complete else Claim)
      ensures !markIrqHandled ==>
                Value().file == old(Value()).file.(eip := old(Value()).file.eip - {old(topei)})
    {
      LevelOkStep(Value(), if markIrqHandled then Complete else Claim);
      if markIrqHandled {
        eithreshold.TstackPop();
      } else {
        UpdateEipBit(topei, false);
        assert old(Value()).file.eip - {0} == old(Value()).file.eip;
      }
      ComputeImsicPendingInterrupts();
    }

    /** Interrupt entry in nested-vectored mode: raise the threshold, claim, recompute. */
    method NotifyIrqTaken()
      requires Valid() && nv && pending
      modifies Repr()
      ensures Valid() && Value() == Step(old(Value()), Take)
      ensures !pending
    {
      EntryIsGatedAndQuiet(Value());
      LevelOkStep(Value(), Take);
      eithreshold.UpdateWithNewIrq(topei);
      UpdateEipBit(topei, false);
      ComputeImsicPendingInterrupts();
    }

    /** An indirect write of one eip register; bit 0 of register 0 is read-only zero. */
    method WriteEipWord(idx: nat, val: Word)
      requires Valid() && idx < EIP_EIE_ARR_SIZE
      modifies eip, this
      ensures Valid() && Value() == Step(old(Value()), WriteEip(idx, WordBits(idx, val)))
    {
      ghost var words := eip[..];
      var masked: Word := if idx == 0 then val[0 := false] else val;
      eip[idx] := masked;
      assert eip[..] == words[idx := masked];
      BitsOfUpdate(words, idx, masked);
      MaskedWordBits(idx, val, masked);
      assert Bits(eip[..]) == ReplaceWord(Bits(words), idx, WordBits(idx, val));
      ComputeImsicPendingInterrupts();
    }

    method WriteEieWord(idx: nat, val: Word)
      requires Valid() && idx < EIP_EIE_ARR_SIZE
      modifies eie, this
      ensures Valid() && Value() == Step(old(Value()), WriteEie(idx, WordBits(idx, val)))
    {
      ghost var words := eie[..];
      var masked: Word := if idx == 0 then val[0 := false] else val;
      eie[idx] := masked;
      assert eie[..] == words[idx := masked];
      BitsOfUpdate(words, idx, masked);
      MaskedWordBits(idx, val, masked);
      assert Bits(eie[..]) == ReplaceWord(Bits(words), idx, WordBits(idx, val));
      ComputeImsicPendingInterrupts();
    }

    static lemma MaskedWordBits(idx: nat, val: Word, masked: Word)
      requires masked == if idx == 0 then val[0 := false] else val
      ensures WordBits(idx, masked) == set i | i in WordBits(idx, val) && i / 32 == idx && i != 0
    {
    }

    method WriteEidelivery(on: bool)
      requires Valid()
      modifies this
      ensures Valid() && Value() == Step(old(Value()), WriteDelivery(on))
    {
      delivery := on;
      ComputeImsicPendingInterrupts();
    }

    method WriteEithresholdReg(val: nat)
      requires Valid()
      modifies Repr()
      ensures Valid() && Value() == Step(old(Value()), WriteEithreshold(val))
    {
      LevelOkStep(Value(), WriteEithreshold(val));
      eithreshold.CheckedWrite(val);
      ComputeImsicPendingInterrupts();
    }

    /** A write of the trap-vector register tells the threshold register the mode. */
    method OnXtvecWrite(nestedVectored: bool)
      requires Valid()
      modifies this, eithreshold
      ensures Valid() && Value() == Step(old(Value()), SetMode(nestedVectored))
    {
      nv := nestedVectored;
      eithreshold.modeSnpsVectored := nestedVectored;
    }
  }
}
