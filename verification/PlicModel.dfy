/**
 The platform-level interrupt controller: sources with a level and a pending flag, and contexts that
 claim and complete them (RISC-V PLIC specification 1.0.0).
 */
module PlicModel {
  import opened Bits
  import opened Words

  datatype Plic = Plic(
    numSources: nat,
    numContexts: nat,
    priority: seq<nat>,
    enable: seq<Word>,
    threshold: seq<nat>,
    claimed: seq<nat>,
    pending: seq<bool>,
    level: seq<bool>)
  {
    function EnableWords(): nat {
      (numSources + 31) / 32
    }

    /** Sources are numbered from 1; index 0 of the source arrays is unused. */
    ghost predicate Wf() {
      && |priority| == |pending| == |level| == numSources + 1
      && |threshold| == |claimed| == numContexts
      && |enable| == numContexts * EnableWords()
      && (forall c | 0 <= c < numContexts :: claimed[c] <= numSources)
    }

    predicate IsSource(i: nat) {
      0 < i <= numSources
    }

    /** The last source that has an enable bit and may be arbitrated. */
    function Limit(): int {
      if numSources <= EnableWords() * 32 - 1 then numSources else EnableWords() * 32 - 1
    }
  }

  function EnableIndex(p: Plic, c: nat, w: nat): (i: nat)
    requires c < p.numContexts && w < p.EnableWords()
    ensures i < p.numContexts * p.EnableWords()
  {
    MulMonotone(p.EnableWords(), c + 1, p.numContexts);
    assert p.EnableWords() * (c + 1) == c * p.EnableWords() + p.EnableWords();
    c * p.EnableWords() + w
  }

  predicate Enabled(p: Plic, c: nat, i: nat)
    requires p.Wf() && c < p.numContexts && i < 32 * p.EnableWords()
  {
    p.enable[EnableIndex(p, c, i / 32)][i % 32]
  }

  predicate Eligible(p: Plic, c: nat, i: nat)
    requires p.Wf() && c < p.numContexts
  {
    0 < i <= p.Limit() && p.pending[i] && Enabled(p, c, i) && p.priority[i] > p.threshold[c]
  }

  /** The order of service: higher priority first, then the lower source number. */
  predicate Before(p: Plic, i: nat, j: nat)
    requires i < |p.priority| && j < |p.priority|
  {
    p.priority[i] > p.priority[j] || (p.priority[i] == p.priority[j] && i < j)
  }

  ghost predicate IsBest(p: Plic, c: nat, n: int, r: nat)
    requires p.Wf() && c < p.numContexts && n <= p.Limit()
  {
    && (r != 0 ==> r <= n && Eligible(p, c, r))
    && (forall i | 1 <= i <= n && i != r && Eligible(p, c, i) :: r != 0 && Before(p, r, i))
  }

  /** The scan over the sources up to `n`, in ascending order. */
  function BestUpTo(p: Plic, c: nat, n: int): (r: nat)
    requires p.Wf() && c < p.numContexts && n <= p.Limit()
    ensures IsBest(p, c, n, r)
    decreases if n < 0 then 0 else n
  {
    if n <= 0 then 0
    else
      var best := BestUpTo(p, c, n - 1);
      if Eligible(p, c, n) && (best == 0 || p.priority[n] > p.priority[best]) then n else best
  }

  function FindHighest(p: Plic, c: nat): (r: nat)
    requires p.Wf() && c < p.numContexts
    ensures IsBest(p, c, p.Limit(), r) && r <= p.numSources
  {
    BestUpTo(p, c, p.Limit())
  }

  /** A source that may be served: pending, enabled, above the threshold, and not the last of full enable words. */
  ghost predicate Servable(p: Plic, c: nat, i: nat)
    requires p.Wf() && c < p.numContexts
  {
    && 0 < i <= p.numSources && (p.numSources % 32 == 0 ==> i < p.numSources)
    && p.pending[i] && ReadEnable(p, c, i / 32)[i % 32] && p.priority[i] > p.threshold[c]
  }

  /** The source a claim returns: of the highest priority, the lowest number; zero when there is none to serve. */
  lemma ServedIs(p: Plic, c: nat)
    requires p.Wf() && c < p.numContexts
    ensures var r := FindHighest(p, c);
      && (r == 0 ==> forall i: nat :: !Servable(p, c, i))
      && (r != 0 ==> Servable(p, c, r) && forall i: nat | Servable(p, c, i) && i != r ::
            p.priority[i] < p.priority[r] || (p.priority[i] == p.priority[r] && r < i))
  {
    hide FindHighest, BestUpTo;
    if p.numSources > 0 {
      LimitIs(p);
    }
    forall i: nat
      ensures Servable(p, c, i) <==> Eligible(p, c, i)
    {
      hide Before;
      assert 0 < i <= p.numSources ==> i / 32 <= p.EnableWords();
    }
  }

  lemma LimitIs(p: Plic)
    requires p.Wf() && p.numSources > 0
    ensures p.Limit() == if p.numSources % 32 == 0 then p.numSources - 1 else p.numSources
  {
  }

  // ---- operations ----

  function SetIrq(p: Plic, i: int, on: bool): Plic
    requires p.Wf()
  {
    if 0 < i <= p.numSources then p.(level := p.level[i := on], pending := p.pending[i := on]) else p
  }

  function Claim(p: Plic, c: nat): Plic
    requires p.Wf() && c < p.numContexts
  {
    var r := FindHighest(p, c);
    if r > 0 then p.(pending := p.pending[r := false], claimed := p.claimed[c := r]) else p
  }

  function Complete(p: Plic, c: nat, i: nat): Plic
    requires p.Wf() && c < p.numContexts
  {
    if p.IsSource(i) && p.claimed[c] == i then
      p.(claimed := p.claimed[c := 0], pending := if p.level[i] then p.pending[i := true] else p.pending)
    else p
  }

  /** A completion ends the service it names, and a source whose line is still up pends again; any other does nothing. */
  lemma CompleteIs(p: Plic, c: nat, i: nat)
    requires p.Wf() && c < p.numContexts
    ensures var q := Complete(p, c, i);
      && q.Wf() && q == p.(claimed := q.claimed, pending := q.pending)
      && (forall d | 0 <= d < p.numContexts ::
            q.claimed[d] == if d == c && i != 0 && p.claimed[c] == i then 0 else p.claimed[d])
      && (forall j | 0 <= j <= p.numSources ::
            q.pending[j] == (p.pending[j] || (j == i && i != 0 && p.claimed[c] == i && p.level[j])))
  {
  }

  /** The bits of an enable word that belong to a source. */
  function SourceBits(p: Plic, w: nat, v: Word): Word {
    seq(32, b requires 0 <= b < 32 => v[b] && p.IsSource(32 * w + b))
  }

  function WriteEnable(p: Plic, c: nat, w: nat, v: Word): Plic
    requires p.Wf()
  {
    if c >= p.numContexts || w >= p.EnableWords() then p
    else p.(enable := p.enable[EnableIndex(p, c, w) := SourceBits(p, w, v)])
  }

  function ReadEnable(p: Plic, c: nat, w: nat): Word
    requires p.Wf()
  {
    if c >= p.numContexts || w >= p.EnableWords() then Zero() else p.enable[EnableIndex(p, c, w)]
  }

  lemma EnableIndexInjective(p: Plic, c: nat, w: nat, c': nat, w': nat)
    requires c < p.numContexts && w < p.EnableWords() && c' < p.numContexts && w' < p.EnableWords()
    requires EnableIndex(p, c, w) == EnableIndex(p, c', w')
    ensures c == c' && w == w'
  {
    var n := p.EnableWords();
    DivModUnique(c * n + w, n, c, w);
    DivModUnique(c' * n + w', n, c', w');
  }

  /** A written enable word reads back without the bits of sources that do not exist; no other word changes. */
  lemma EnableReadsBack(p: Plic, c: nat, w: nat, v: Word, c': nat, w': nat)
    requires p.Wf()
    ensures WriteEnable(p, c, w, v).Wf()
    ensures ReadEnable(WriteEnable(p, c, w, v), c', w')
         == if c == c' && w == w' && c < p.numContexts && w < p.EnableWords() then SourceBits(p, w, v)
            else ReadEnable(p, c', w')
    ensures forall b | 0 <= b < 32 :: SourceBits(p, w, v)[b] == (v[b] && 0 < 32 * w + b <= p.numSources)
  {
    if c < p.numContexts && w < p.EnableWords() && c' < p.numContexts && w' < p.EnableWords() {
      if EnableIndex(p, c, w) == EnableIndex(p, c', w') {
        EnableIndexInjective(p, c, w, c', w');
      }
    }
  }

  // ---- memory-mapped access ----

  const PENDING_BASE := 0x1000
  const ENABLE_BASE := 0x2000
  const ENABLE_STRIDE := 0x80
  const CONTEXT_BASE := 0x20_0000
  const CONTEXT_STRIDE := 0x1000
  const THRESHOLD_OFF := 0
  const CLAIM_OFF := 4

  function MmioWrite(p: Plic, offset: nat, val: nat): Plic
    requires p.Wf()
  {
    if offset < PENDING_BASE then
      if p.IsSource(offset / 4) then p.(priority := p.priority[offset / 4 := val % 8]) else p
    else if offset < ENABLE_BASE then p
    else if offset < CONTEXT_BASE then
      WriteEnable(p, (offset - ENABLE_BASE) / ENABLE_STRIDE, (offset - ENABLE_BASE) % ENABLE_STRIDE / 4, WordOf(val))
    else
      WriteContext(p, (offset - CONTEXT_BASE) / CONTEXT_STRIDE, (offset - CONTEXT_BASE) % CONTEXT_STRIDE, val)
  }

  function WriteContext(p: Plic, c: nat, off: nat, val: nat): Plic
    requires p.Wf()
  {
    if c >= p.numContexts then p
    else if off == THRESHOLD_OFF then p.(threshold := p.threshold[c := val % 8])
    else if off == CLAIM_OFF then Complete(p, c, val)
    else p
  }

  /** The context whose claim register a read at `offset` reaches, or -1. */
  function ClaimingContext(p: Plic, offset: nat): (c: int)
    ensures -1 <= c < p.numContexts
  {
    if offset >= CONTEXT_BASE && (offset - CONTEXT_BASE) % CONTEXT_STRIDE == CLAIM_OFF
       && (offset - CONTEXT_BASE) / CONTEXT_STRIDE < p.numContexts
    then (offset - CONTEXT_BASE) / CONTEXT_STRIDE
    else -1
  }

  /** What a read leaves behind: only the claim register has a side effect. */
  function MmioReadState(p: Plic, offset: nat): Plic
    requires p.Wf()
  {
    if ClaimingContext(p, offset) == -1 then p else Claim(p, ClaimingContext(p, offset))
  }

  function PendingWord(p: Plic, w: nat): Word
    requires p.Wf()
  {
    seq(32, b requires 0 <= b < 32 => 32 * w + b <= p.numSources && p.pending[32 * w + b])
  }

  function ContextValue(p: Plic, c: nat, off: nat): Word
    requires p.Wf()
  {
    if c >= p.numContexts then Zero()
    else if off == THRESHOLD_OFF then WordOf(p.threshold[c] % 8)
    else if off == CLAIM_OFF then WordOf(FindHighest(p, c))
    else Zero()
  }

  /** What a read returns. */
  function LoadValue(p: Plic, offset: nat): Word
    requires p.Wf()
  {
    if offset < PENDING_BASE then
      if p.IsSource(offset / 4) then WordOf(p.priority[offset / 4] % 8) else Zero()
    else if offset < ENABLE_BASE then PendingWord(p, (offset - PENDING_BASE) / 4)
    else if offset < CONTEXT_BASE then
      ReadEnable(p, (offset - ENABLE_BASE) / ENABLE_STRIDE, (offset - ENABLE_BASE) % ENABLE_STRIDE / 4)
    else ContextValue(p, (offset - CONTEXT_BASE) / CONTEXT_STRIDE, (offset - CONTEXT_BASE) % CONTEXT_STRIDE)
  }

  /** A priority or a threshold reads back as its low three bits; the pending words do not hear stores. */
  lemma RegistersReadBack(p: Plic, offset: nat, val: nat, w: nat)
    requires p.Wf() && MmioWrite(p, offset, val).Wf()
    ensures offset < PENDING_BASE && p.IsSource(offset / 4) ==> LoadValue(MmioWrite(p, offset, val), offset) == WordOf(val % 8)
    ensures offset >= CONTEXT_BASE && (offset - CONTEXT_BASE) / CONTEXT_STRIDE < p.numContexts
            && (offset - CONTEXT_BASE) % CONTEXT_STRIDE == THRESHOLD_OFF
            ==> LoadValue(MmioWrite(p, offset, val), offset) == WordOf(val % 8)
    ensures PENDING_BASE <= offset < ENABLE_BASE ==> PendingWord(MmioWrite(p, offset, val), w) == PendingWord(p, w)
  {
    hide WordOf, FindHighest, WriteEnable, Complete, ReadEnable;
    assert val % 8 % 8 == val % 8;
  }

  /** The source registers in bytes: priorities from 0x0, pending words from 0x1000. */
  lemma SourceRegisterMap(p: Plic, i: nat, val: nat)
    requires p.Wf() && 0 < i < 0x400
    ensures MmioWrite(p, 4 * i, val) == (if i <= p.numSources then p.(priority := p.priority[i := val % 8]) else p)
    ensures i <= p.numSources ==> LoadValue(p, 0x1000 + 4 * (i / 32))[i % 32] == p.pending[i]
  {
    hide WriteEnable, WriteContext, ReadEnable, ContextValue, WordOf;
  }

  /** The enable words: 0x80 bytes for each context from 0x2000 on. */
  lemma EnableRegisterMap(p: Plic, c: nat, w: nat, val: nat)
    requires p.Wf() && w < 32 && 0x2000 + 0x80 * c + 4 * w < 0x20_0000
    ensures MmioWrite(p, 0x2000 + 0x80 * c + 4 * w, val) == WriteEnable(p, c, w, WordOf(val))
    ensures LoadValue(p, 0x2000 + 0x80 * c + 4 * w) == ReadEnable(p, c, w)
  {
    hide WriteEnable, WriteContext, ReadEnable, ContextValue, WordOf, PendingWord;
    DivModUnique(0x80 * c + 4 * w, 0x80, c, 4 * w);
  }

  /** The context registers: 0x1000 bytes for each from 0x20_0000 on, the threshold first and the claim register after it. */
  lemma ContextRegisterMap(p: Plic, c: nat, val: nat)
    requires p.Wf() && c < p.numContexts
    ensures MmioWrite(p, 0x20_0000 + 0x1000 * c, val) == p.(threshold := p.threshold[c := val % 8])
    ensures MmioWrite(p, 0x20_0004 + 0x1000 * c, val) == Complete(p, c, val)
    ensures MmioReadState(p, 0x20_0004 + 0x1000 * c) == Claim(p, c)
    ensures LoadValue(p, 0x20_0004 + 0x1000 * c) == WordOf(FindHighest(p, c))
  {
    hide WordOf, FindHighest, WriteEnable, Complete, Claim, ReadEnable, PendingWord;
    DivModUnique(0x1000 * c, 0x1000, c, 0);
    DivModUnique(0x1000 * c + 4, 0x1000, c, 4);
  }

  // ---- runs ----

  datatype Event = Device(source: int, on: bool) | Load(offset: nat) | Store(offset: nat, val: nat)

  function Step(p: Plic, e: Event): Plic
    requires p.Wf()
  {
    match e
    case Device(i, on) => SetIrq(p, i, on)
    case Load(offset) => MmioReadState(p, offset)
    case Store(offset, val) => MmioWrite(p, offset, val)
  }

  lemma StepWf(p: Plic, e: Event)
    requires p.Wf()
    ensures Step(p, e).Wf() && Step(p, e).numSources == p.numSources && Step(p, e).numContexts == p.numContexts
  {
  }

  ghost function Run(p: Plic, es: seq<Event>): (p': Plic)
    requires p.Wf()
    ensures p'.Wf() && p'.numSources == p.numSources && p'.numContexts == p.numContexts
  {
    if es == [] then p
    else
      StepWf(Run(p, es[..|es| - 1]), es[|es| - 1]);
      Step(Run(p, es[..|es| - 1]), es[|es| - 1])
  }

  function Initial(numSources: nat, numContexts: nat): (p: Plic)
    ensures p.Wf()
  {
    MulSign(numContexts, (numSources + 31) / 32);
    Plic(numSources, numContexts, seq(numSources + 1, _ => 0), seq(numContexts * ((numSources + 31) / 32), _ => Zero()),
         seq(numContexts, _ => 0), seq(numContexts, _ => 0),
         seq(numSources + 1, _ => false), seq(numSources + 1, _ => false))
  }

  // ---- no spurious pending ----

  ghost predicate PendingIsAsserted(p: Plic)
    requires p.Wf()
  {
    forall i | 0 <= i <= p.numSources && p.pending[i] :: p.level[i]
  }

  lemma StepKeepsPending(p: Plic, e: Event)
    requires p.Wf() && PendingIsAsserted(p)
    ensures Step(p, e).Wf() && PendingIsAsserted(Step(p, e))
  {
    hide FindHighest;
    StepWf(p, e);
  }

  /** In every reachable state a pending source is asserted, whatever the guest and the devices do. */
  lemma {:induction false} PendingImpliesLevel(numSources: nat, numContexts: nat, es: seq<Event>)
    ensures PendingIsAsserted(Run(Initial(numSources, numContexts), es))
  {
    if es != [] {
      PendingImpliesLevel(numSources, numContexts, es[..|es| - 1]);
      StepKeepsPending(Run(Initial(numSources, numContexts), es[..|es| - 1]), es[|es| - 1]);
    }
  }

  /** The last level a device gave to a source, low if none did. */
  function LastDrive(es: seq<Event>, s: nat): bool {
    if es == [] then false
    else
      var e := es[|es| - 1];
      if e.Device? && e.source == s then e.on else LastDrive(es[..|es| - 1], s)
  }

  /** The level kept for a source is that of the last call about it; a source driven low last is not pending. */
  lemma {:induction false} LevelIsLastDrive(numSources: nat, numContexts: nat, es: seq<Event>, s: nat)
    requires 0 < s <= numSources
    ensures var p := Run(Initial(numSources, numContexts), es);
      && p.level[s] == LastDrive(es, s)
      && (!LastDrive(es, s) ==> !p.pending[s])
      && (es != [] && es[|es| - 1] == Device(s, true) ==> p.pending[s])
      && !p.level[0] && !p.pending[0]
  {
    PendingImpliesLevel(numSources, numContexts, es);
    if es != [] {
      LevelIsLastDrive(numSources, numContexts, es[..|es| - 1], s);
      StepLevel(Run(Initial(numSources, numContexts), es[..|es| - 1]), es[|es| - 1], s);
    }
  }

  lemma StepLevel(p: Plic, e: Event, s: nat)
    requires p.Wf() && 0 < s <= p.numSources
    ensures Step(p, e).Wf() && Step(p, e).level[s] == if e.Device? && e.source == s then e.on else p.level[s]
    ensures e == Device(s, true) ==> Step(p, e).pending[s]
    ensures Step(p, e).level[0] == p.level[0] && (Step(p, e).pending[0] ==> p.pending[0])
  {
    hide FindHighest;
    StepWf(p, e);
  }

  // ---- no asserted level is forgotten ----

  ghost predicate ClaimedBySome(p: Plic, i: nat)
    requires p.Wf()
  {
    exists c :: 0 <= c < p.numContexts && p.claimed[c] == i
  }

  /** Every asserted source is pending or in service. */
  ghost predicate LevelIsHeld(p: Plic)
    requires p.Wf()
  {
    forall i | 1 <= i <= p.numSources && p.level[i] :: p.pending[i] || ClaimedBySome(p, i)
  }

  /**
   A claim by context `c` forgets a source that `c` still has in service: asserted, not pending, claimed
   by no other context, and displaced by the new claim.
   */
  ghost predicate Displaces(p: Plic, c: nat)
    requires p.Wf() && c < p.numContexts
  {
    && FindHighest(p, c) > 0 && p.claimed[c] > 0 && FindHighest(p, c) != p.claimed[c]
    && p.level[p.claimed[c]] && !p.pending[p.claimed[c]]
    && forall d | 0 <= d < p.numContexts && d != c :: p.claimed[d] != p.claimed[c]
  }

  lemma ClaimKeepsLevelIff(p: Plic, c: nat)
    requires p.Wf() && c < p.numContexts && LevelIsHeld(p)
    ensures Claim(p, c).Wf() && (LevelIsHeld(Claim(p, c)) <==> !Displaces(p, c))
  {
    var r, p' := FindHighest(p, c), Claim(p, c);
    hide FindHighest, IsBest;
    if r > 0 {
      forall i | 1 <= i <= p.numSources && p'.level[i] && !Displaces(p, c)
        ensures p'.pending[i] || ClaimedBySome(p', i)
      {
        if i == r {
          assert p'.claimed[c] == i;
        } else if !p.pending[i] {
          var d :| 0 <= d < p.numContexts && p.claimed[d] == i;
          if d == c {
            var e :| 0 <= e < p.numContexts && e != c && p.claimed[e] == i;
            assert p'.claimed[e] == i;
          } else {
            assert p'.claimed[d] == i;
          }
        }
      }
    }
  }

  lemma CompleteKeepsLevel(p: Plic, c: nat, i: nat)
    requires p.Wf() && c < p.numContexts && LevelIsHeld(p)
    ensures Complete(p, c, i).Wf() && LevelIsHeld(Complete(p, c, i))
  {
    var p' := Complete(p, c, i);
    forall j | 1 <= j <= p.numSources && p'.level[j] && !p'.pending[j]
      ensures ClaimedBySome(p', j)
    {
      var d :| 0 <= d < p.numContexts && p.claimed[d] == j;
      assert p'.claimed[d] == j;
    }
  }

  /** Whether an event is a claim in a context that has another claim outstanding. */
  ghost predicate ClaimsNested(p: Plic, e: Event)
    requires p.Wf()
  {
    && e.Load? && ClaimingContext(p, e.offset) != -1
    && p.claimed[ClaimingContext(p, e.offset)] != 0
  }

  lemma StepKeepsLevel(p: Plic, e: Event)
    requires p.Wf() && LevelIsHeld(p) && !ClaimsNested(p, e)
    ensures Step(p, e).Wf() && LevelIsHeld(Step(p, e))
  {
    hide FindHighest, WriteEnable, Claim, Complete;
    var p' := Step(p, e);
    match e {
      case Device(i, on) =>
        StepWf(p, e);
        forall j | 1 <= j <= p.numSources && p'.level[j] && !p'.pending[j]
          ensures ClaimedBySome(p', j)
        {
          var d :| 0 <= d < p.numContexts && p.claimed[d] == j;
          assert p'.claimed[d] == j;
        }
      case Load(offset) =>
        var c := ClaimingContext(p, offset);
        if c != -1 {
          ClaimKeepsLevelIff(p, c);
        }
      case Store(offset, val) =>
        StepWf(p, e);
        StoreKeepsLevel(p, offset, val);
    }
  }

  lemma StoreKeepsLevel(p: Plic, offset: nat, val: nat)
    requires p.Wf() && LevelIsHeld(p) && MmioWrite(p, offset, val).Wf()
    ensures LevelIsHeld(MmioWrite(p, offset, val))
  {
    hide Complete;
    var p' := MmioWrite(p, offset, val);
    var c := (offset - CONTEXT_BASE) / CONTEXT_STRIDE;
    if offset >= CONTEXT_BASE && c < p.numContexts && (offset - CONTEXT_BASE) % CONTEXT_STRIDE == CLAIM_OFF {
      CompleteKeepsLevel(p, c, val);
    } else {
      assert p'.claimed == p.claimed && p'.pending == p.pending && p'.level == p.level;
      forall j | 1 <= j <= p.numSources && p'.level[j] && !p'.pending[j]
        ensures ClaimedBySome(p', j)
      {
        var d :| 0 <= d < p.numContexts && p.claimed[d] == j;
        assert p'.claimed[d] == j;
      }
    }
  }

  ghost predicate NeverNested(p: Plic, es: seq<Event>)
    requires p.Wf()
  {
    forall k | 0 <= k < |es| :: !ClaimsNested(Run(p, es[..k]), es[k])
  }

  /** On runs that claim only with no claim outstanding, no asserted level is ever forgotten. */
  lemma {:induction false} LevelNeverLost(numSources: nat, numContexts: nat, es: seq<Event>)
    requires NeverNested(Initial(numSources, numContexts), es)
    ensures LevelIsHeld(Run(Initial(numSources, numContexts), es))
  {
    if es != [] {
      var p, front := Initial(numSources, numContexts), es[..|es| - 1];
      forall k | 0 <= k < |front|
        ensures !ClaimsNested(Run(p, front[..k]), front[k])
      {
        assert front[..k] == es[..k] && front[k] == es[k];
      }
      LevelNeverLost(numSources, numContexts, front);
      StepKeepsLevel(Run(p, front), es[|es| - 1]);
    }
  }

  // ---- a drain is a sort ----

  ghost function EligibleSet(p: Plic, c: nat): set<nat>
    requires p.Wf() && c < p.numContexts
  {
    set i: nat | 0 <= i <= p.numSources && Eligible(p, c, i)
  }

  lemma ClaimTakesBest(p: Plic, c: nat)
    requires p.Wf() && c < p.numContexts
    ensures var r, p' := FindHighest(p, c), Claim(p, c);
      && p'.Wf() && p'.priority == p.priority && p'.numContexts == p.numContexts
      && (r == 0 <==> EligibleSet(p, c) == {})
      && (r != 0 ==> r in EligibleSet(p, c))
      && EligibleSet(p', c) == EligibleSet(p, c) - {r}
      && (forall i | i in EligibleSet(p, c) && i != r :: Before(p, r, i))
  {
    var r, p' := FindHighest(p, c), Claim(p, c);
    hide FindHighest, BestUpTo, Before, Enabled;
    ClaimRemoves(p, c);
    assert r != 0 ==> Eligible(p, c, r) && r in EligibleSet(p, c);
  }

  lemma ClaimRemoves(p: Plic, c: nat)
    requires p.Wf() && c < p.numContexts
    ensures Claim(p, c).Wf()
    ensures forall i: nat | i <= p.numSources :: Eligible(Claim(p, c), c, i) <==> Eligible(p, c, i) && i != FindHighest(p, c)
  {
    hide FindHighest, BestUpTo, Before, IsBest;
    var r, p' := FindHighest(p, c), Claim(p, c);
    forall i: nat | i <= p.numSources
      ensures Eligible(p', c, i) <==> Eligible(p, c, i) && i != r
    {
      if r > 0 {
        assert p'.pending == p.pending[r := false];
      }
    }
  }

  /** Claims in one context until the claim register reads zero. */
  ghost function Drain(p: Plic, c: nat): (s: seq<nat>)
    requires p.Wf() && c < p.numContexts
    decreases |EligibleSet(p, c)|
  {
    ClaimTakesBest(p, c);
    if FindHighest(p, c) == 0 then []
    else [FindHighest(p, c)] + Drain(Claim(p, c), c)
  }

  /** A drain returns every eligible source exactly once, in the order of service. */
  lemma {:induction false} DrainIsSort(p: Plic, c: nat)
    requires p.Wf() && c < p.numContexts
    ensures |Drain(p, c)| == |EligibleSet(p, c)|
    ensures forall i :: i in Drain(p, c) <==> i in EligibleSet(p, c)
    ensures forall j, k | 0 <= j < k < |Drain(p, c)| ::
      Drain(p, c)[j] <= p.numSources && Drain(p, c)[k] <= p.numSources && Before(p, Drain(p, c)[j], Drain(p, c)[k])
    decreases |EligibleSet(p, c)|
  {
    hide FindHighest, Claim, Eligible;
    ClaimTakesBest(p, c);
    var r := FindHighest(p, c);
    if r != 0 {
      DrainIsSort(Claim(p, c), c);
      var rest := Drain(Claim(p, c), c);
      assert Drain(p, c) == [r] + rest;
      assert |EligibleSet(Claim(p, c), c)| == |EligibleSet(p, c)| - 1;
      forall j, k | 0 <= j < k < |Drain(p, c)|
        ensures Drain(p, c)[j] <= p.numSources && Drain(p, c)[k] <= p.numSources
        ensures Before(p, Drain(p, c)[j], Drain(p, c)[k])
      {
        assert Drain(p, c)[k] == rest[k - 1] && rest[k - 1] in rest;
        if j > 0 {
          assert Drain(p, c)[j] == rest[j - 1];
        }
      }
    }
  }

  // ---- the interrupt lines of a hart ----

  const MEIP := 0x800
  const SEIP := 0x200

  predicate MLine(p: Plic, hart: nat)
    requires p.Wf()
  {
    2 * hart < p.numContexts && FindHighest(p, 2 * hart) > 0
  }

  predicate SLine(p: Plic, hart: nat)
    requires p.Wf()
  {
    2 * hart + 1 < p.numContexts && FindHighest(p, 2 * hart + 1) > 0
  }

  /** The external interrupt lines of a hart, as bits of mip. */
  function PendingMip(p: Plic, hart: nat): nat
    requires p.Wf()
  {
    (if MLine(p, hart) then MEIP else 0) + (if SLine(p, hart) then SEIP else 0)
  }

  /** A line is up exactly when a drain in its context would not be empty. */
  lemma LineIsUpIff(p: Plic, hart: nat)
    requires p.Wf()
    ensures PendingMip(p, hart) / 0x800 % 2 == 1 <==> 2 * hart < p.numContexts && Drain(p, 2 * hart) != []
    ensures PendingMip(p, hart) / 0x200 % 2 == 1 <==> 2 * hart + 1 < p.numContexts && Drain(p, 2 * hart + 1) != []
    ensures PendingMip(p, hart) in {0, 0x200, 0x800, 0xA00}
  {
    hide FindHighest, Claim;
    hide MLine, SLine;
    assert PendingMip(p, hart) / MEIP % 2 == 1 <==> MLine(p, hart);
    assert PendingMip(p, hart) / SEIP % 2 == 1 <==> SLine(p, hart);
    LineIsDrain(p, hart);
  }

  lemma LineIsDrain(p: Plic, hart: nat)
    requires p.Wf()
    ensures MLine(p, hart) <==> 2 * hart < p.numContexts && Drain(p, 2 * hart) != []
    ensures SLine(p, hart) <==> 2 * hart + 1 < p.numContexts && Drain(p, 2 * hart + 1) != []
  {
    hide FindHighest, Claim;
  }

  // ---- a source that is never served ----

  /** When the sources fill their enable words exactly, no claim in any state returns the last one. */
  lemma LastSourceIsDeaf(p: Plic, c: nat)
    requires p.Wf() && p.numSources > 0 && p.numSources % 32 == 0 && c < p.numContexts
    ensures FindHighest(p, c) != p.numSources
  {
    hide FindHighest;
    LimitIs(p);
  }

  /** The priority words reach sources below 1024; any other keeps priority zero. */
  ghost predicate FarIsZero(p: Plic)
    requires p.Wf()
  {
    forall i | 0x400 <= i <= p.numSources :: p.priority[i] == 0
  }

  lemma {:induction false} FarStaysZero(numSources: nat, numContexts: nat, es: seq<Event>)
    ensures FarIsZero(Run(Initial(numSources, numContexts), es))
  {
    if es != [] {
      FarStaysZero(numSources, numContexts, es[..|es| - 1]);
      StepFarZero(Run(Initial(numSources, numContexts), es[..|es| - 1]), es[|es| - 1]);
    }
  }

  lemma StepFarZero(p: Plic, e: Event)
    requires p.Wf() && FarIsZero(p)
    ensures Step(p, e).Wf() && FarIsZero(Step(p, e))
  {
    hide FindHighest, SourceBits;
    StepWf(p, e);
  }

  /** Give a source priority 7, enable it in context 0, and assert it. */
  function Raise(n: nat): seq<Event> {
    [Store(4 * n, 7), Store(ENABLE_BASE + 4 * (n / 32), Pow2(n % 32)), Device(n, true)]
  }

  /** Only the last source is pending, with priority 7 over threshold 0, and enabled if it has an enable bit. */
  ghost predicate Raised(p: Plic) {
    && p.Wf() && p.numSources > 0 && p.numContexts > 0
    && p.pending[p.numSources] && p.level[p.numSources] && p.priority[p.numSources] == 7 && p.threshold[0] == 0
    && (forall i | 0 <= i < p.numSources :: !p.pending[i])
    && (p.numSources % 32 != 0 ==> Enabled(p, 0, p.numSources))
  }

  lemma RaisedState(numSources: nat, numContexts: nat)
    requires 0 < numSources < 0x400 && numContexts > 0
    ensures Raised(Run(Initial(numSources, numContexts), Raise(numSources)))
  {
    var n, es := numSources, Raise(numSources);
    var p0 := Initial(n, numContexts);
    var p1 := MmioWrite(p0, 4 * n, 7);
    assert p1 == p0.(priority := p0.priority[n := 7]);
    EnableBitSet(p1, n);
    var p2 := MmioWrite(p1, ENABLE_BASE + 4 * (n / 32), Pow2(n % 32));
    RunThree(p0, es);
  }

  lemma RunThree(p: Plic, es: seq<Event>)
    requires p.Wf() && |es| == 3
    ensures Step(p, es[0]).Wf() && Step(Step(p, es[0]), es[1]).Wf()
    ensures Run(p, es) == Step(Step(Step(p, es[0]), es[1]), es[2])
  {
    hide Step;
    StepWf(p, es[0]);
    StepWf(Step(p, es[0]), es[1]);
    assert es[..2][..1] == es[..1] && es[..1][..0] == [];
    assert Run(p, es[..1]) == Step(p, es[0]);
    assert Run(p, es[..2]) == Step(Run(p, es[..1]), es[1]);
  }

  /** `q` is `p` with the last source enabled in context 0, if it has an enable bit. */
  ghost predicate EnablesLast(p: Plic, q: Plic) {
    && q == p.(enable := q.enable) && q.Wf() && q.numContexts > 0
    && (p.numSources % 32 != 0 ==> Enabled(q, 0, p.numSources))
  }

  /** The store that enables source `n` in context 0. */
  lemma EnableBitSet(p: Plic, n: nat)
    requires p.Wf() && n == p.numSources && 0 < n < 0x400 && p.numContexts > 0
    ensures EnablesLast(p, MmioWrite(p, ENABLE_BASE + 4 * (n / 32), Pow2(n % 32)))
  {
    hide Pow2, WordOf;
    var offset := ENABLE_BASE + 4 * (n / 32);
    assert (offset - ENABLE_BASE) / ENABLE_STRIDE == 0 && (offset - ENABLE_BASE) % ENABLE_STRIDE / 4 == n / 32;
    EnableReadsBack(p, 0, n / 32, WordOf(Pow2(n % 32)), 0, n / 32);
    OwnBit(n % 32);
  }

  lemma OwnBit(b: nat)
    requires b < 32
    ensures WordOf(Pow2(b))[b]
  {
    hide Pow2;
    DivModUnique(Pow2(b), Pow2(b), 1, 0);
  }

  /** With priority, enable and level as above, the last source is the one served, unless its enable bit is missing. */
  lemma RaisedIsServed(numSources: nat, numContexts: nat)
    requires 0 < numSources < 0x400 && numSources % 32 != 0 && numContexts > 0
    ensures FindHighest(Run(Initial(numSources, numContexts), Raise(numSources)), 0) == numSources
  {
    hide FindHighest, Run, Raise, Enabled;
    RaisedState(numSources, numContexts);
    var p := Run(Initial(numSources, numContexts), Raise(numSources));
    LimitIs(p);
    assert Eligible(p, 0, numSources);
    assert FindHighest(p, 0) != 0;
  }

  /**
   The last source can be served exactly when the sources do not fill their enable words, and it is not so
   far out that no priority word reaches it.
   */
  lemma LastSourceUnreachableIff(numSources: nat, numContexts: nat)
    requires numSources > 0 && numContexts > 0
    ensures (forall es: seq<Event>, c: nat | c < numContexts :: FindHighest(Run(Initial(numSources, numContexts), es), c) != numSources)
       <==> numSources % 32 == 0 || numSources >= 0x400
  {
    hide FindHighest, Run;
    if numSources % 32 != 0 && numSources < 0x400 {
      RaisedIsServed(numSources, numContexts);
    } else {
      forall es: seq<Event>, c: nat | c < numContexts
        ensures FindHighest(Run(Initial(numSources, numContexts), es), c) != numSources
      {
        var p := Run(Initial(numSources, numContexts), es);
        if numSources % 32 == 0 {
          LastSourceIsDeaf(p, c);
        } else {
          FarStaysZero(numSources, numContexts, es);
        }
      }
    }
  }

  /** Source 128 of 128, asserted with priority 7 and its enable bit written, is never served. */
  lemma SourceOf128IsDeaf()
    ensures var p := Run(Initial(128, 1), Raise(128));
      Raised(p) && p.numSources == 128 && p.numContexts == 1 && FindHighest(p, 0) == 0
  {
    hide FindHighest, Run, Raise;
    RaisedState(128, 1);
    LimitIs(Run(Initial(128, 1), Raise(128)));
  }
}
