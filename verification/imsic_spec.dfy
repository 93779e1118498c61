/** One IMSIC interrupt file and its threshold stack, as values.

    A register of 32 or 64 bits, and an array of them, is the set of its set bits. */
module ImsicSpec {

  const IMSIC_MAX_IRQS: nat := 2048
  const NV_MODE_MAX_VECTOR: nat := 255
  const NO_IRQ_PENDING: nat := 2 * IMSIC_MAX_IRQS

  predicate IsLeast(s: set<nat>, m: nat) {
    m in s && forall k :: k in s ==> m <= k
  }

  lemma {:induction false} LeastExists(s: set<nat>)
    requires s != {}
    ensures exists m :: IsLeast(s, m)
  {
    var x :| x in s;
    var rest := s - {x};
    assert forall k :: k in s <==> k == x || k in rest;
    if rest == {} {
      assert IsLeast(s, x);
    } else {
      LeastExists(rest);
      var m :| IsLeast(rest, m);
      assert IsLeast(s, if x < m then x else m);
    }
  }

  function Least(s: set<nat>): (m: nat)
    requires s != {}
    ensures m in s && forall k :: k in s ==> m <= k
  {
    LeastExists(s);
    var m :| IsLeast(s, m);
    m
  }

  lemma LeastUnique(s: set<nat>, m: nat)
    requires m in s && forall k :: k in s ==> m <= k
    ensures Least(s) == m
  {
  }

  // ---------------------------------------------------------------- the threshold stack

  /** `reg` is the active threshold, `stacked` the preempted ones, `tail` the base. */
  datatype Threshold = Threshold(reg: nat, stacked: set<nat>, tail: nat)

  const ResetThreshold := Threshold(0, {}, 0)

  predicate IsTailed(iid: nat) { iid > NV_MODE_MAX_VECTOR }

  predicate Unstackable(reg: nat) { reg == 0 || IsTailed(reg) }

  function Insert(t: Threshold, iid: nat): Threshold {
    if Unstackable(t.reg) then t.(reg := iid)
    else Threshold(if t.reg > iid then iid else t.reg, t.stacked + {t.reg}, t.tail)
  }

  function PutTail(t: Threshold, iid: nat): Threshold {
    if Unstackable(t.reg) then t.(reg := iid, tail := iid) else t.(tail := iid)
  }

  function Pop(t: Threshold): Threshold {
    if t.stacked == {} then t.(reg := t.tail)
    else t.(reg := Least(t.stacked), stacked := t.stacked - {Least(t.stacked)})
  }

  /** What taking interrupt `iid` does: every tailed identity raises the threshold to 255. */
  function Enter(t: Threshold, iid: nat): Threshold {
    Insert(t, if IsTailed(iid) then NV_MODE_MAX_VECTOR else iid)
  }

  /** A software write of eithreshold. */
  function WriteThreshold(t: Threshold, nv: bool, value: nat): Threshold {
    if value >= IMSIC_MAX_IRQS then t
    else if !nv then t.(reg := value)
    else if value == 0 then Pop(t)
    else if IsTailed(value) then PutTail(t, value)
    else Insert(t, value)
  }

  /** Every threshold reachable from reset by nested-vectored operations: the active value is
      not above a stacked one, and with nothing to stack it is the base. */
  ghost predicate Layered(t: Threshold) {
    && (t.tail == 0 || NV_MODE_MAX_VECTOR < t.tail < IMSIC_MAX_IRQS)
    && (if Unstackable(t.reg) then t.stacked == {} && t.reg == t.tail
        else forall k :: k in t.stacked ==> t.reg <= k <= NV_MODE_MAX_VECTOR)
  }

  /** The layers strictly decrease towards the active one. */
  ghost predicate Strict(t: Threshold) {
    Layered(t) && (Unstackable(t.reg) || t.reg !in t.stacked)
  }

  /** An identity that may preempt the active threshold. */
  predicate Preempts(t: Threshold, iid: nat) {
    t.reg == 0 || iid < t.reg
  }

  lemma LayeredKept(t: Threshold, iid: nat, value: nat)
    requires Layered(t) && 0 < iid < IMSIC_MAX_IRQS
    ensures Layered(Enter(t, iid)) && Layered(Pop(t)) && Layered(WriteThreshold(t, true, value))
  {
  }

  lemma StrictKept(t: Threshold, iid: nat)
    requires Strict(t) && 0 < iid < IMSIC_MAX_IRQS
    ensures Preempts(t, iid) ==> Strict(Enter(t, iid))
    ensures Strict(Pop(t))
    ensures IsTailed(iid) ==> Strict(PutTail(t, iid))
  {
  }

  /** Whether raising the threshold once is undone by completing once. */
  ghost predicate Reversible(t: Threshold) {
    if Unstackable(t.reg) then t.stacked == {} && t.reg == t.tail
    else forall k :: k in t.stacked ==> t.reg < k
  }

  /** From any state at all, raising the threshold, by whatever identity, and completing once gives
      the state back exactly when it is reversible. */
  lemma InsertThenPop(t: Threshold, iid: nat)
    ensures Pop(Insert(t, iid)) == t <==> Reversible(t)
  {
  }

  /** Among the states that nested-vectored operations reach, those with strict layers. */
  lemma StrictIsReversible(t: Threshold)
    requires Layered(t)
    ensures Reversible(t) <==> Strict(t)
  {
  }

  lemma ReversibleKept(t: Threshold, iid: nat)
    requires Reversible(t) && 0 < iid < IMSIC_MAX_IRQS && Preempts(t, iid)
    ensures Reversible(Enter(t, iid))
  {
  }

  /** What a software write of eithreshold does to the stack: zero completes, a tailed value moves the
      base, any other raises if it preempts.  Outside nested-vectored mode it replaces the register. */
  lemma WriteIsStackOperation(t: Threshold, value: nat)
    requires Strict(t) && value < IMSIC_MAX_IRQS
    ensures value == 0 ==> Layers(WriteThreshold(t, true, value)) == if Layers(t) == [] then [] else Layers(t)[1..]
    ensures IsTailed(value) ==>
              Layers(WriteThreshold(t, true, value)) == Layers(t) && WriteThreshold(t, true, value).tail == value
    ensures 0 < value <= NV_MODE_MAX_VECTOR && Preempts(t, value) ==>
              Layers(WriteThreshold(t, true, value)) == [value] + Layers(t)
    ensures WriteThreshold(t, false, value) == t.(reg := value)
  {
    if value == 0 {
      ThresholdIsAStack(t, 1);
    } else {
      ThresholdIsAStack(t, value);
    }
  }

  /** A dropped identity leaves a state that is layered but not strict. */
  lemma DroppedInsertDuplicates(t: Threshold, iid: nat)
    requires Layered(t) && !Unstackable(t.reg) && 0 < iid <= NV_MODE_MAX_VECTOR
    ensures Strict(Insert(t, iid)) <==> iid < t.reg
    ensures Insert(t, iid).reg == if iid < t.reg then iid else t.reg
  {
  }

  /** The layers above the base, the active one first. */
  ghost function Ascending(s: set<nat>): seq<nat> {
    if s == {} then [] else [Least(s)] + Ascending(s - {Least(s)})
  }

  ghost function Layers(t: Threshold): seq<nat> {
    if Unstackable(t.reg) then [] else [t.reg] + Ascending(t.stacked)
  }

  lemma {:induction false} AscendingIsSorted(s: set<nat>)
    ensures forall i, j :: 0 <= i < j < |Ascending(s)| ==> Ascending(s)[i] < Ascending(s)[j]
    ensures forall i :: 0 <= i < |Ascending(s)| ==> Ascending(s)[i] in s
  {
    if s != {} {
      AscendingIsSorted(s - {Least(s)});
    }
  }

  /** The register, the bitmap and the tail are a stack over a base: entering pushes below
      everything, completing pops, and the active threshold is the top or the base. */
  lemma ThresholdIsAStack(t: Threshold, iid: nat)
    requires Strict(t) && 0 < iid < IMSIC_MAX_IRQS
    ensures forall i, j :: 0 <= i < j < |Layers(t)| ==> Layers(t)[i] < Layers(t)[j]
    ensures t.reg == if Layers(t) == [] then t.tail else Layers(t)[0]
    ensures Preempts(t, iid) ==>
              Layers(Enter(t, iid)) == [if IsTailed(iid) then NV_MODE_MAX_VECTOR else iid] + Layers(t)
    ensures Layers(Pop(t)) == if Layers(t) == [] then [] else Layers(t)[1..]
  {
    AscendingIsSorted(t.stacked);
    if !Unstackable(t.reg) {
      LeastUnique(t.stacked + {t.reg}, t.reg);
      assert t.stacked + {t.reg} - {t.reg} == t.stacked;
      assert Ascending(t.stacked + {t.reg}) == [t.reg] + Ascending(t.stacked);
    }
  }

  // ---------------------------------------------------------------- the interrupt file

  datatype File = File(eip: set<nat>, eie: set<nat>, delivery: bool, threshold: Threshold)

  const ResetFile := File({}, {}, false, ResetThreshold)

  /** The least identity both pending and enabled, or a value above every identity. */
  function NextIid(f: File): nat {
    if f.eip * f.eie == {} then NO_IRQ_PENDING else Least(f.eip * f.eie)
  }

  /** Does the file signal an interrupt to the hart? */
  predicate Signals(f: File) {
    f.delivery && NextIid(f) < if f.threshold.reg == 0 then IMSIC_MAX_IRQS else f.threshold.reg
  }

  /** What `compute_imsic_pending` puts into topei, before its 12-bit field cuts it. */
  function TopeiValue(f: File, nv: bool): nat {
    if f.delivery && (Signals(f) || nv) then NextIid(f) else 0
  }

  predicate FileOk(f: File) {
    && (forall i :: i in f.eip ==> 0 < i < IMSIC_MAX_IRQS)
    && (forall i :: i in f.eie ==> 0 < i < IMSIC_MAX_IRQS)
    && f.threshold.reg < IMSIC_MAX_IRQS
    && f.threshold.tail < IMSIC_MAX_IRQS
    && (forall i :: i in f.threshold.stacked ==> 0 < i <= NV_MODE_MAX_VECTOR)
  }

  /** The signal, said without minima: delivery is on, and some pending and enabled identity
      has a number below a nonzero threshold. */
  lemma SignalsWhenSomeIidIsBelow(f: File)
    requires FileOk(f)
    ensures Signals(f) <==>
      f.delivery && exists i :: i in f.eip && i in f.eie && (f.threshold.reg == 0 || i < f.threshold.reg)
  {
    if Signals(f) {
      assert NextIid(f) in f.eip * f.eie;
    }
    if i :| i in f.eip && i in f.eie && (f.threshold.reg == 0 || i < f.threshold.reg) {
      assert i in f.eip * f.eie;
    }
  }

  /** A file with the two hart-side values computed from it: the external-interrupt pending bit
      and the topei register.  `nv` is the nested-vectored mode of the level's trap vector. */
  datatype Level = Level(file: File, nv: bool, pending: bool, topei: nat)

  const ResetLevel := Level(ResetFile, false, false, 0)

  function Refresh(l: Level): Level {
    l.(pending := Signals(l.file), topei := TopeiValue(l.file, l.nv) % 4096)
  }

  function SetEip(f: File, iid: nat): File {
    if iid == 0 then f else f.(eip := f.eip + {iid})
  }

  function ClearEip(f: File, iid: nat): File {
    f.(eip := f.eip - {iid})
  }

  /** The bits of one 32-bit register of an eip or eie array replaced; bit 0 stays clear. */
  ghost function ReplaceWord(bits: set<nat>, word: nat, value: set<nat>): set<nat> {
    (set i | i in bits && i / 32 != word) + (set i | i in value && i / 32 == word && i != 0)
  }

  datatype Event =
    | Arrive(iid: nat)                         // a message-signalled interrupt
    | WriteEip(word: nat, value: set<nat>)
    | WriteEie(word: nat, value: set<nat>)
    | WriteDelivery(on: bool)
    | WriteEithreshold(level: nat)
    | SetMode(nv: bool)                        // a write of the trap-vector register
    | Claim                                    // a topei write that claims
    | Complete                                 // a topei write that marks the interrupt handled
    | Take                                     // nested-vectored interrupt entry

  ghost predicate Possible(l: Level, e: Event) {
    match e
    case Arrive(iid) => iid < IMSIC_MAX_IRQS
    case WriteEip(w, _) => w < IMSIC_MAX_IRQS / 32
    case WriteEie(w, _) => w < IMSIC_MAX_IRQS / 32
    case Complete => l.nv
    case Take => l.nv && l.pending
    case _ => true
  }

  ghost function Step(l: Level, e: Event): Level {
    match e
    case Arrive(iid) => if iid == 0 then l else Refresh(l.(file := SetEip(l.file, iid)))
    case WriteEip(w, v) => Refresh(l.(file := l.file.(eip := ReplaceWord(l.file.eip, w, v))))
    case WriteEie(w, v) => Refresh(l.(file := l.file.(eie := ReplaceWord(l.file.eie, w, v))))
    case WriteDelivery(on) => Refresh(l.(file := l.file.(delivery := on)))
    case WriteEithreshold(v) =>
      Refresh(l.(file := l.file.(threshold := WriteThreshold(l.file.threshold, l.nv, v))))
    case SetMode(nv) => l.(nv := nv)
    case Claim => Refresh(l.(file := ClearEip(l.file, l.topei)))
    case Complete => Refresh(l.(file := l.file.(threshold := Pop(l.file.threshold))))
    case Take =>
      var entered := l.file.(threshold := Enter(l.file.threshold, l.topei));
      Refresh(l.(file := ClearEip(entered, l.topei)))
  }

  /** The pending bit is the signal, and a set pending bit names the least candidate. */
  ghost predicate LevelOk(l: Level) {
    && FileOk(l.file)
    && l.topei < IMSIC_MAX_IRQS
    && (l.pending <==> Signals(l.file))
    && (l.pending ==> 0 < l.topei == NextIid(l.file))
  }

  lemma RefreshOk(l: Level)
    requires FileOk(l.file)
    ensures LevelOk(Refresh(l))
  {
  }

  /** Signalling: over every sequence of software accesses, arriving messages, mode changes
      and interrupt entries, the pending bit is set exactly when the file signals. */
  lemma LevelOkStep(l: Level, e: Event)
    requires LevelOk(l) && Possible(l, e)
    ensures LevelOk(Step(l, e))
  {
    match e
    case Arrive(iid) =>
      RefreshOk(l.(file := SetEip(l.file, iid)));
    case WriteEip(w, v) =>
      RefreshOk(l.(file := l.file.(eip := ReplaceWord(l.file.eip, w, v))));
    case WriteEie(w, v) =>
      RefreshOk(l.(file := l.file.(eie := ReplaceWord(l.file.eie, w, v))));
    case WriteDelivery(on) =>
      RefreshOk(l.(file := l.file.(delivery := on)));
    case WriteEithreshold(v) =>
      RefreshOk(l.(file := l.file.(threshold := WriteThreshold(l.file.threshold, l.nv, v))));
    case SetMode(_) =>
    case Claim =>
      RefreshOk(l.(file := ClearEip(l.file, l.topei)));
    case Complete =>
      RefreshOk(l.(file := l.file.(threshold := Pop(l.file.threshold))));
    case Take =>
      RefreshOk(l.(file := ClearEip(l.file.(threshold := Enter(l.file.threshold, l.topei)), l.topei)));
  }

  /** Entering a nested-vectored interrupt: the claimed identity preempts the threshold, and
      right after entry nothing is signalled, whatever else is pending. */
  lemma EntryIsGatedAndQuiet(l: Level)
    requires LevelOk(l) && Possible(l, Take)
    ensures Preempts(l.file.threshold, l.topei)
    ensures !Step(l, Take).pending
    ensures Step(l, Take).file.eip == l.file.eip - {l.topei}
  {
    var f' := Step(l, Take).file;
    LevelOkStep(l, Take);
    SignalsWhenSomeIidIsBelow(f');
    forall i | i in f'.eip && i in f'.eie ensures f'.threshold.reg != 0 && i >= f'.threshold.reg {
      assert i in l.file.eip * l.file.eie;
    }
  }

  // ---------------------------------------------------------------- what each event does

  /** A message adds its identity and nothing else. */
  lemma ArriveAdds(l: Level, iid: nat)
    ensures var f, f' := l.file, Step(l, Arrive(iid)).file;
      && f' == f.(eip := f'.eip)
      && forall i :: i in f'.eip <==> i in f.eip || (i == iid && iid != 0)
  {
  }

  /** A write of one register of eip or eie replaces its 32 identities and no other. */
  lemma WriteReplaces(l: Level, word: nat, value: set<nat>)
    ensures var f, f' := l.file, Step(l, WriteEip(word, value)).file;
      && f' == f.(eip := f'.eip)
      && forall i :: i in f'.eip <==> if 32 * word <= i < 32 * word + 32 then i in value && i != 0 else i in f.eip
    ensures var f, f' := l.file, Step(l, WriteEie(word, value)).file;
      && f' == f.(eie := f'.eie)
      && forall i :: i in f'.eie <==> if 32 * word <= i < 32 * word + 32 then i in value && i != 0 else i in f.eie
  {
  }

  /** In nested-vectored mode topei names the least candidate even when the threshold holds it back. */
  lemma TopeiNamesTheCandidate(l: Level)
    requires FileOk(l.file) && l.nv && l.file.delivery
    ensures var topei := Refresh(l).topei; var candidates := l.file.eip * l.file.eie;
      if candidates == {} then topei == 0 else topei in candidates && forall i :: i in candidates ==> topei <= i
  {
  }

  /** A claim takes the identity that topei shows out of eip, and leaves everything else. */
  lemma ClaimClears(l: Level)
    ensures Step(l, Claim).file == l.file.(eip := l.file.eip - {l.topei}) && Step(l, Claim).nv == l.nv
  {
  }

  /** What a level may still signal: candidates that the threshold does not hold back. */
  ghost function Below(f: File): set<nat> {
    set i | i in f.eip * f.eie && (f.threshold.reg == 0 || i < f.threshold.reg)
  }

  /** Claiming a signalled interrupt takes the least of them, and the next one is above it. */
  lemma ClaimStep(l: Level)
    requires LevelOk(l) && l.pending
    ensures LevelOk(Step(l, Claim)) && l.topei in Below(l.file)
    ensures forall i :: i in Below(l.file) ==> l.topei <= i
    ensures Below(Step(l, Claim).file) == Below(l.file) - {l.topei}
    ensures Step(l, Claim).pending ==> l.topei < Step(l, Claim).topei
  {
    LevelOkStep(l, Claim);
    var f := l.file;
    assert NextIid(f) in f.eip * f.eie;
    var next := Step(l, Claim);
    if next.pending {
      assert next.topei in next.file.eip * next.file.eie;
      assert next.topei in f.eip * f.eie && next.topei != l.topei;
    }
  }

  /** Software that claims as long as the interrupt pends: the identities it is given. */
  ghost function Claims(l: Level): seq<nat>
    requires LevelOk(l)
    decreases |l.file.eip|
  {
    ClaimShrinks(l);
    if l.pending then [l.topei] + Claims(Step(l, Claim)) else []
  }

  ghost function Claimed(l: Level): Level
    requires LevelOk(l)
    decreases |l.file.eip|
  {
    ClaimShrinks(l);
    if l.pending then Claimed(Step(l, Claim)) else l
  }

  lemma ClaimShrinks(l: Level)
    requires LevelOk(l)
    ensures l.pending ==> LevelOk(Step(l, Claim)) && |Step(l, Claim).file.eip| < |l.file.eip|
  {
    if l.pending {
      ClaimStep(l);
    }
  }

  /** `s` lists the identities of a set, each once, in ascending order. */
  ghost predicate Lists(s: seq<nat>, ids: set<nat>) {
    && (forall i, j :: 0 <= i < j < |s| ==> s[i] < s[j])
    && (forall i :: i in s <==> i in ids)
  }

  lemma ListsLeastFirst(least: nat, rest: seq<nat>, ids: set<nat>)
    requires Lists(rest, ids - {least}) && least in ids && forall i :: i in ids ==> least <= i
    ensures Lists([least] + rest, ids)
  {
    forall j | 0 <= j < |rest| ensures least < rest[j] {
      assert rest[j] in rest;
    }
    forall i ensures i in [least] + rest <==> i in ids {
      assert i in [least] + rest <==> i == least || i in rest;
    }
  }

  /** A claiming loop is given every candidate below the threshold once, in ascending order. */
  lemma {:induction false} ClaimsAreComplete(l: Level)
    requires LevelOk(l) && l.file.delivery
    ensures Lists(Claims(l), Below(l.file))
    decreases |l.file.eip|
  {
    ClaimShrinks(l);
    if l.pending {
      ClaimStep(l);
      ClaimsAreComplete(Step(l, Claim));
      ListsLeastFirst(l.topei, Claims(Step(l, Claim)), Below(l.file));
    } else {
      NothingBelow(l);
    }
  }

  /** It clears exactly those, and ends with nothing signalled. */
  lemma {:induction false} ClaimsEndQuiet(l: Level)
    requires LevelOk(l) && l.file.delivery
    ensures LevelOk(Claimed(l)) && !Claimed(l).pending
    ensures Claimed(l).file == l.file.(eip := l.file.eip - Below(l.file))
    decreases |l.file.eip|
  {
    ClaimShrinks(l);
    if l.pending {
      var next := Step(l, Claim);
      ClaimStep(l);
      ClaimClears(l);
      ClaimsEndQuiet(next);
      assert next.file.eip - Below(next.file) == l.file.eip - Below(l.file);
    } else {
      NothingBelow(l);
      assert l.file.eip - Below(l.file) == l.file.eip;
    }
  }

  lemma NothingBelow(l: Level)
    requires LevelOk(l) && l.file.delivery && !l.pending
    ensures Below(l.file) == {}
  {
    SignalsWhenSomeIidIsBelow(l.file);
    forall i ensures i !in Below(l.file) {
    }
  }

  // ---------------------------------------------------------------- well-nested runs

  /** A run of one level in nested-vectored mode: other events, interrupts handled from entry to
      completion with anything nested inside, and software sections that raise the threshold
      below the active one and lower it again. */
  datatype Run =
    | End
    | Then(e: Event, rest: Run)
    | Handled(body: Run, rest: Run)
    | Raised(iid: nat, body: Run, rest: Run)

  ghost predicate CanRun(l: Level, run: Run)
    decreases run
  {
    match run
    case End => true
    case Then(e, rest) =>
      (e.Arrive? || e.WriteEip? || e.WriteEie? || e.WriteDelivery? || e.Claim?) &&
      Possible(l, e) && CanRun(Step(l, e), rest)
    case Handled(body, rest) =>
      Possible(l, Take) && CanRun(Step(l, Take), body) &&
      CanRun(Step(Final(Step(l, Take), body), Complete), rest)
    case Raised(iid, body, rest) =>
      var raised := Step(l, WriteEithreshold(iid));
      0 < iid <= NV_MODE_MAX_VECTOR && Preempts(l.file.threshold, iid) && CanRun(raised, body) &&
      CanRun(Step(Final(raised, body), WriteEithreshold(0)), rest)
  }

  ghost function Final(l: Level, run: Run): Level
    decreases run
  {
    match run
    case End => l
    case Then(e, rest) => Final(Step(l, e), rest)
    case Handled(body, rest) => Final(Step(Final(Step(l, Take), body), Complete), rest)
    case Raised(iid, body, rest) =>
      Final(Step(Final(Step(l, WriteEithreshold(iid)), body), WriteEithreshold(0)), rest)
  }

  /** Threshold nesting: from a reversible state every well-nested run, to any depth and with any
      interrupts arriving meanwhile, gives back the whole threshold state it started from. */
  lemma {:induction false} NestingRestoresThreshold(l: Level, run: Run)
    requires LevelOk(l) && l.nv && Reversible(l.file.threshold) && CanRun(l, run)
    ensures Final(l, run).file.threshold == l.file.threshold
    ensures LevelOk(Final(l, run)) && Final(l, run).nv
    decreases run
  {
    match run
    case End =>
    case Then(e, rest) =>
      LevelOkStep(l, e);
      NestingRestoresThreshold(Step(l, e), rest);
    case Handled(body, rest) =>
      var taken := Step(l, Take);
      LevelOkStep(l, Take);
      EntryIsGatedAndQuiet(l);
      ReversibleKept(l.file.threshold, l.topei);
      NestingRestoresThreshold(taken, body);
      LevelOkStep(Final(taken, body), Complete);
      InsertThenPop(l.file.threshold, if IsTailed(l.topei) then NV_MODE_MAX_VECTOR else l.topei);
      NestingRestoresThreshold(Step(Final(taken, body), Complete), rest);
    case Raised(iid, body, rest) =>
      var raised := Step(l, WriteEithreshold(iid));
      LevelOkStep(l, WriteEithreshold(iid));
      ReversibleKept(l.file.threshold, iid);
      NestingRestoresThreshold(raised, body);
      LevelOkStep(Final(raised, body), WriteEithreshold(0));
      InsertThenPop(l.file.threshold, iid);
      NestingRestoresThreshold(Step(Final(raised, body), WriteEithreshold(0)), rest);
  }

  /** And only from such a state: one interrupt that is handled with nothing nested decides. */
  lemma OneHandledInterruptDecides(l: Level)
    requires LevelOk(l) && Possible(l, Take)
    ensures CanRun(l, Handled(End, End))
    ensures Final(l, Handled(End, End)).file.threshold == l.file.threshold <==> Reversible(l.file.threshold)
  {
    InsertThenPop(l.file.threshold, if IsTailed(l.topei) then NV_MODE_MAX_VECTOR else l.topei);
  }

  /** The state after any events, balanced or not. */
  ghost function Steps(l: Level, es: seq<Event>): Level {
    if es == [] then l else Step(Steps(l, es[..|es|-1]), es[|es|-1])
  }

  ghost predicate AllPossible(l: Level, es: seq<Event>) {
    es == [] || (AllPossible(l, es[..|es|-1]) && Possible(Steps(l, es[..|es|-1]), es[|es|-1]))
  }

  lemma {:induction false} SignallingInvariant(es: seq<Event>)
    requires AllPossible(ResetLevel, es)
    ensures LevelOk(Steps(ResetLevel, es))
  {
    if es != [] {
      SignallingInvariant(es[..|es|-1]);
      LevelOkStep(Steps(ResetLevel, es[..|es|-1]), es[|es|-1]);
    }
  }

  /** An event of nested-vectored mode; software raises the threshold only below the active one. */
  ghost predicate Gated(l: Level, e: Event) {
    Possible(l, e) &&
    match e
    case WriteEithreshold(v) => 0 < v <= NV_MODE_MAX_VECTOR ==> Preempts(l.file.threshold, v)
    case SetMode(nv) => nv
    case _ => true
  }

  ghost predicate AllGated(l: Level, es: seq<Event>) {
    es == [] || (AllGated(l, es[..|es|-1]) && Gated(Steps(l, es[..|es|-1]), es[|es|-1]))
  }

  /** From reset in nested-vectored mode the threshold is a strict stack in every state of every
      run, balanced or not, of entries, completions, tail writes and all other events. */
  lemma {:induction false} AlwaysAStrictStack(es: seq<Event>)
    requires AllGated(ResetLevel.(nv := true), es)
    ensures var l := Steps(ResetLevel.(nv := true), es);
            LevelOk(l) && l.nv && Strict(l.file.threshold) && Reversible(l.file.threshold)
  {
    if es != [] {
      AlwaysAStrictStack(es[..|es|-1]);
      var l, e := Steps(ResetLevel.(nv := true), es[..|es|-1]), es[|es|-1];
      LevelOkStep(l, e);
      StrictStep(l, e);
    }
    StrictIsReversible(Steps(ResetLevel.(nv := true), es).file.threshold);
  }

  lemma StrictStep(l: Level, e: Event)
    requires LevelOk(l) && l.nv && Strict(l.file.threshold) && Gated(l, e)
    ensures Step(l, e).nv && Strict(Step(l, e).file.threshold)
  {
    match e
    case WriteEithreshold(v) =>
      if 0 < v < IMSIC_MAX_IRQS {
        StrictKept(l.file.threshold, v);
      } else {
        StrictKept(l.file.threshold, 1);
      }
    case Complete => StrictKept(l.file.threshold, 1);
    case Take =>
      EntryIsGatedAndQuiet(l);
      StrictKept(l.file.threshold, l.topei);
    case _ =>
  }

  /** A software write outside nested-vectored mode bypasses the stack.  After it, one raise and
      completion is undone exactly when the value written fits what the bitmap and tail still hold:
      it lies below every stacked threshold, or nothing is stacked and it is the tail. */
  lemma DirectWriteNesting(s: Threshold, value: nat, iid: nat)
    requires value < IMSIC_MAX_IRQS
    ensures var t := WriteThreshold(s, false, value);
      Pop(Enter(t, iid)) == t <==>
      if Unstackable(value) then s.stacked == {} && value == s.tail else forall k :: k in s.stacked ==> value < k
  {
    InsertThenPop(WriteThreshold(s, false, value), if IsTailed(iid) then NV_MODE_MAX_VECTOR else iid);
  }

  /** One that does not: 300 written after reset is gone after one handled interrupt. */
  lemma DirectWriteBreaksNesting()
    ensures
      var t := WriteThreshold(ResetThreshold, false, 300);
      !Layered(t) && Pop(Enter(t, 10)) == ResetThreshold
  {
  }
}
