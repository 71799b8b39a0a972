/**
 The APLIC in MSI mode: each wired source has a trigger type, an input level, an enable and a pending
 bit; a source that is pending and enabled while the domain is on sends one message and stops pending.
 */
module AplicModel {
  import opened Bits

  // ---- one source ----

  const INACTIVE := 0
  const EDGE_RISE := 4
  const EDGE_FALL := 5
  const LEVEL_HIGH := 6
  const LEVEL_LOW := 7

  datatype Source = Source(sm: nat, target: nat, input: bool, enabled: bool, pending: bool)

  predicate Level(sm: nat) {
    sm == LEVEL_HIGH || sm == LEVEL_LOW
  }

  /** Whether the input is at its active level. */
  predicate InputActive(x: Source) {
    x.sm != INACTIVE && (x.input != (x.sm == LEVEL_LOW || x.sm == EDGE_FALL))
  }

  /** Whether a call that moves the input from `was` to `now` is an interrupt of this trigger type. */
  predicate Fires(sm: nat, was: bool, now: bool) {
    match sm
    case 6 => now
    case 7 => !now
    case 4 => now && !was
    case 5 => !now && was
    case _ => false
  }

  function Eiid(x: Source): nat {
    x.target % 0x800
  }

  function HartIndex(x: Source): nat {
    x.target / 0x4_0000 % 0x4000
  }

  predicate Ready(ie: bool, x: Source) {
    ie && x.pending && x.enabled
  }

  /** The source after a delivery attempt. */
  function Delivered(ie: bool, x: Source): Source {
    if Ready(ie, x) then x.(pending := false) else x
  }

  predicate Sends(ie: bool, x: Source) {
    Ready(ie, x) && Eiid(x) != 0
  }

  /** A software request to pend: a level source follows it only while its input is active. */
  predicate MayPend(x: Source) {
    x.sm != INACTIVE && (Level(x.sm) ==> InputActive(x))
  }

  // ---- the domain ----

  datatype Msi = Msi(source: nat, hart: nat, eiid: nat)

  datatype Aplic = Aplic(ie: bool, dm: bool, sources: seq<Source>, sent: seq<Msi>)
  {
    /** Sources are numbered from 1; entry 0 is unused. */
    predicate Wf() {
      |sources| >= 1
    }

    predicate IsSource(s: int) {
      0 < s < |sources|
    }
  }

  /** Source `s` becomes `x`, with a delivery attempt if asked for. */
  function Update(a: Aplic, s: nat, x: Source, deliver: bool): (a': Aplic)
    requires a.IsSource(s)
    ensures |a'.sources| == |a.sources| && a'.ie == a.ie && a'.dm == a.dm
    ensures forall t | 0 <= t < |a.sources| && t != s :: a'.sources[t] == a.sources[t]
  {
    if deliver then
      a.(sources := a.sources[s := Delivered(a.ie, x)],
         sent := a.sent + if Sends(a.ie, x) then [Msi(s, HartIndex(x), Eiid(x))] else [])
    else a.(sources := a.sources[s := x])
  }

  function Deliver(a: Aplic, s: nat): Aplic
    requires a.IsSource(s)
  {
    Update(a, s, a.sources[s], true)
  }

  function SetIrq(a: Aplic, s: int, level: bool): Aplic {
    if !a.IsSource(s) || a.sources[s].sm == INACTIVE then a
    else Update(a, s, Driven(a.sources[s], level), Fires(a.sources[s].sm, a.sources[s].input, level) && !a.sources[s].pending)
  }

  function Driven(x: Source, level: bool): Source {
    x.(input := level, pending := x.pending || Fires(x.sm, x.input, level))
  }

  function BindSource(a: Aplic, s: int, hart: int, eiid: nat): Aplic {
    if !a.IsSource(s) || !(0 <= hart <= 0x3FFF) then a
    else Update(a, s, a.sources[s].(sm := LEVEL_HIGH, target := hart * 0x4_0000 + eiid % 0x800, enabled := true), false)
  }

  /** Sets or clears the pending bit by software; a source that is set this way tries to deliver. */
  function SetPending(a: Aplic, s: nat, on: bool): Aplic
    requires a.IsSource(s)
  {
    if on then
      if MayPend(a.sources[s]) then Update(a, s, a.sources[s].(pending := true), true) else a
    else
      if a.sources[s].sm != INACTIVE then Update(a, s, a.sources[s].(pending := false), false) else a
  }

  function SetEnabled(a: Aplic, s: nat, on: bool): Aplic
    requires a.IsSource(s)
  {
    Update(a, s, a.sources[s].(enabled := on), on)
  }

  function WriteSourcecfg(a: Aplic, s: nat, val: nat): Aplic
    requires a.IsSource(s)
  {
    Update(a, s, Configured(a.sources[s], val % 8), false)
  }

  function Configured(x: Source, sm: nat): Source {
    if sm == INACTIVE then x.(sm := sm, pending := false, enabled := false)
    else if InputActive(x.(sm := sm)) then x.(sm := sm, pending := true)
    else x.(sm := sm)
  }

  /** Delivery attempts for the sources below `n`, in ascending order. */
  function DeliverBelow(a: Aplic, n: nat): (a': Aplic)
    requires a.Wf() && 1 <= n <= |a.sources|
    ensures |a'.sources| == |a.sources| && a'.ie == a.ie && a'.dm == a.dm
  {
    if n == 1 then a else Deliver(DeliverBelow(a, n - 1), n - 1)
  }

  function WriteDomaincfg(a: Aplic, val: nat): Aplic
    requires a.Wf()
  {
    if val / 0x100 % 2 == 1 then DeliverBelow(a.(ie := true, dm := val / 4 % 2 == 1), |a.sources|)
    else a.(ie := false, dm := val / 4 % 2 == 1)
  }

  // ---- the register map ----

  datatype BitOp = SetIp | ClrIp | SetIe | ClrIe

  datatype Register =
    | Domaincfg
    | Sourcecfg(s: nat)
    | TargetOf(s: nat)
    | Bitmap(op: BitOp, word: nat)
    | Numbered(op: BitOp)
    | Ignored

  const BITFIELD_BYTES := 8

  function Decode(offset: nat, numSources: nat): (r: Register)
    ensures r.Sourcecfg? ==> 1 <= r.s <= numSources
    ensures r.TargetOf? ==> 1 <= r.s <= numSources
  {
    if offset == 0 then Domaincfg
    else if 4 <= offset < 4 + numSources * 4 then Sourcecfg((offset - 4) / 4 + 1)
    else if 0x1C00 <= offset < 0x1C00 + BITFIELD_BYTES then Bitmap(SetIp, (offset - 0x1C00) / 4)
    else if 0x1D00 <= offset < 0x1D00 + BITFIELD_BYTES then Bitmap(ClrIp, (offset - 0x1D00) / 4)
    else if 0x1E00 <= offset < 0x1E00 + BITFIELD_BYTES then Bitmap(SetIe, (offset - 0x1E00) / 4)
    else if 0x1F00 <= offset < 0x1F00 + BITFIELD_BYTES then Bitmap(ClrIe, (offset - 0x1F00) / 4)
    else if 0x3004 <= offset < 0x3004 + numSources * 4 then TargetOf((offset - 0x3004) / 4 + 1)
    else if 0x1CDC <= offset < 0x1CE0 then Numbered(SetIp)
    else if 0x1DDC <= offset < 0x1DE0 then Numbered(ClrIp)
    else if 0x1EDC <= offset < 0x1EE0 then Numbered(SetIe)
    else if 0x1FDC <= offset < 0x1FE0 then Numbered(ClrIe)
    else if 0x2000 <= offset < 0x2004 then Numbered(SetIp)
    else Ignored
  }

  function BitWrite(a: Aplic, s: nat, op: BitOp): (a': Aplic)
    requires a.IsSource(s)
    ensures |a'.sources| == |a.sources| && a'.ie == a.ie && a'.dm == a.dm
    ensures forall t | 0 <= t < |a.sources| && t != s :: a'.sources[t] == a.sources[t]
  {
    match op
    case SetIp => SetPending(a, s, true)
    case ClrIp => SetPending(a, s, false)
    case SetIe => SetEnabled(a, s, true)
    case ClrIe => SetEnabled(a, s, false)
  }

  predicate BitOf(val: nat, i: nat) {
    val / Pow2(i) % 2 == 1
  }

  /** The lowest `n` bits of a bitmap write, in ascending order. */
  function BitmapBelow(a: Aplic, op: BitOp, word: nat, val: nat, n: nat): (a': Aplic)
    requires a.Wf() && n <= 32
    ensures |a'.sources| == |a.sources| && a'.ie == a.ie && a'.dm == a.dm
  {
    if n == 0 then a
    else
      var b := BitmapBelow(a, op, word, val, n - 1);
      if BitOf(val, n - 1) && b.IsSource(word * 32 + n - 1) then BitWrite(b, word * 32 + n - 1, op) else b
  }

  function WriteRegister(a: Aplic, r: Register, val: nat): (a': Aplic)
    requires a.Wf()
    requires r.Sourcecfg? || r.TargetOf? ==> a.IsSource(r.s)
    ensures |a'.sources| == |a.sources|
  {
    match r
    case Domaincfg => WriteDomaincfg(a, val)
    case Sourcecfg(s) => WriteSourcecfg(a, s, val)
    case TargetOf(s) => Update(a, s, a.sources[s].(target := val), false)
    case Bitmap(op, word) => BitmapBelow(a, op, word, val, 32)
    case Numbered(op) => if a.IsSource(val) then BitWrite(a, val, op) else a
    case Ignored => a
  }

  function MmioWrite(a: Aplic, offset: nat, val: nat): (a': Aplic)
    requires a.Wf()
    ensures |a'.sources| == |a.sources|
  {
    WriteRegister(a, Decode(offset, |a.sources| - 1), val % 0x1_0000_0000)
  }

  // ---- runs ----

  datatype Event = Irq(source: int, level: bool) | Bind(source: int, hart: int, eiid: nat) | Store(offset: nat, val: nat)

  function Step(a: Aplic, e: Event): (a': Aplic)
    requires a.Wf()
    ensures |a'.sources| == |a.sources|
  {
    match e
    case Irq(s, level) => SetIrq(a, s, level)
    case Bind(s, hart, eiid) => BindSource(a, s, hart, eiid)
    case Store(offset, val) => MmioWrite(a, offset, val)
  }

  function Run(a: Aplic, es: seq<Event>): (a': Aplic)
    requires a.Wf()
    ensures |a'.sources| == |a.sources|
  {
    if es == [] then a else Step(Run(a, es[..|es| - 1]), es[|es| - 1])
  }

  function Initial(numSources: nat): (a: Aplic)
    ensures a.Wf()
  {
    Aplic(true, false, seq(numSources + 1, _ => Source(INACTIVE, 0, false, false, false)), [])
  }

  // ---- an inactive source never pends ----

  ghost predicate InactiveIsIdle(a: Aplic) {
    forall s | a.IsSource(s) && a.sources[s].sm == INACTIVE :: !a.sources[s].pending
  }

  lemma {:induction false} DeliverBelowIdle(a: Aplic, n: nat)
    requires a.Wf() && 1 <= n <= |a.sources| && InactiveIsIdle(a)
    ensures InactiveIsIdle(DeliverBelow(a, n))
  {
    if n > 1 {
      DeliverBelowIdle(a, n - 1);
    }
  }

  lemma {:induction false} BitmapIdle(a: Aplic, op: BitOp, word: nat, val: nat, n: nat)
    requires a.Wf() && n <= 32 && InactiveIsIdle(a)
    ensures InactiveIsIdle(BitmapBelow(a, op, word, val, n))
  {
    if n > 0 {
      BitmapIdle(a, op, word, val, n - 1);
    }
  }

  lemma StepKeepsIdle(a: Aplic, e: Event)
    requires a.Wf() && InactiveIsIdle(a)
    ensures InactiveIsIdle(Step(a, e))
  {
    hide Decode, Pow2;
    if e.Store? {
      var r, val := Decode(e.offset, |a.sources| - 1), e.val % 0x1_0000_0000;
      match r
      case Domaincfg => DeliverBelowIdle(a.(ie := true, dm := val / 4 % 2 == 1), |a.sources|);
      case Bitmap(op, word) => BitmapIdle(a, op, word, val, 32);
      case _ =>
    }
  }

  lemma {:induction false} InactiveNeverPends(numSources: nat, es: seq<Event>)
    ensures InactiveIsIdle(Run(Initial(numSources), es))
  {
    if es != [] {
      InactiveNeverPends(numSources, es[..|es| - 1]);
      StepKeepsIdle(Run(Initial(numSources), es[..|es| - 1]), es[|es| - 1]);
    }
  }

  // ---- nothing deliverable is left undelivered ----

  /** While the domain is on, no source is both enabled and pending. */
  ghost predicate NothingStuck(a: Aplic) {
    a.ie ==> forall s | a.IsSource(s) :: !(a.sources[s].enabled && a.sources[s].pending)
  }

  /** The two operations that can pend or enable a source without trying to deliver. */
  predicate Strands(a: Aplic, e: Event)
    requires a.Wf()
  {
    match e
    case Irq(_, _) => false
    case Bind(s, hart, _) => a.ie && a.IsSource(s) && 0 <= hart <= 0x3FFF && a.sources[s].pending
    case Store(offset, val) =>
      match Decode(offset, |a.sources| - 1)
      case Sourcecfg(s) => a.ie && a.sources[s].enabled && InputActive(a.sources[s].(sm := val % 8))
      case _ => false
  }

  lemma {:induction false} DeliverBelowClears(a: Aplic, n: nat)
    requires a.Wf() && 1 <= n <= |a.sources| && a.ie
    ensures forall s | 0 < s < n :: !(DeliverBelow(a, n).sources[s].enabled && DeliverBelow(a, n).sources[s].pending)
  {
    if n > 1 {
      DeliverBelowClears(a, n - 1);
    }
  }

  lemma {:induction false} BitmapNotStuck(a: Aplic, op: BitOp, word: nat, val: nat, n: nat)
    requires a.Wf() && n <= 32 && NothingStuck(a)
    ensures NothingStuck(BitmapBelow(a, op, word, val, n))
  {
    if n > 0 {
      BitmapNotStuck(a, op, word, val, n - 1);
    }
  }

  /** A step leaves a deliverable source undelivered exactly when it strands one. */
  lemma StepKeepsNothingStuckIff(a: Aplic, e: Event)
    requires a.Wf() && NothingStuck(a)
    ensures NothingStuck(Step(a, e)) <==> !Strands(a, e)
  {
    match e
    case Irq(s, level) =>
      hide SetIrq, NothingStuck;
      IrqNotStuck(a, s, level);
    case Bind(s, hart, eiid) =>
      hide BindSource, NothingStuck;
      BindNotStuckIff(a, s, hart, eiid);
    case Store(offset, val) =>
      hide WriteRegister, Decode, InputActive, NothingStuck, SetIrq, BindSource;
      LowBits(val);
      StoreNotStuckIff(a, Decode(offset, |a.sources| - 1), val % 0x1_0000_0000);
  }

  lemma LowBits(val: nat)
    ensures val % 0x1_0000_0000 % 8 == val % 8
  {
  }

  lemma IrqNotStuck(a: Aplic, s: int, level: bool)
    requires NothingStuck(a)
    ensures NothingStuck(SetIrq(a, s, level))
  {
  }

  lemma BindNotStuckIff(a: Aplic, s: int, hart: int, eiid: nat)
    requires NothingStuck(a)
    ensures NothingStuck(BindSource(a, s, hart, eiid))
       <==> !(a.ie && a.IsSource(s) && 0 <= hart <= 0x3FFF && a.sources[s].pending)
  {
    if a.IsSource(s) && 0 <= hart <= 0x3FFF {
      var b := BindSource(a, s, hart, eiid);
      assert b.sources[s].enabled && b.sources[s].pending == a.sources[s].pending;
    }
  }

  lemma StoreNotStuckIff(a: Aplic, r: Register, val: nat)
    requires a.Wf() && NothingStuck(a)
    requires r.Sourcecfg? || r.TargetOf? ==> a.IsSource(r.s)
    ensures NothingStuck(WriteRegister(a, r, val))
       <==> !(r.Sourcecfg? && a.ie && a.sources[r.s].enabled && InputActive(a.sources[r.s].(sm := val % 8)))
  {
    hide Pow2;
    match r
    case Domaincfg => DeliverBelowClears(a.(ie := true, dm := val / 4 % 2 == 1), |a.sources|);
    case Bitmap(op, word) => BitmapNotStuck(a, op, word, val, 32);
    case Sourcecfg(s) =>
      assert WriteRegister(a, r, val).sources[s] == Configured(a.sources[s], val % 8);
    case _ =>
  }

  // ---- conservation of messages ----

  function SentBy(log: seq<Msi>, s: nat): nat {
    if log == [] then 0 else SentBy(log[..|log| - 1], s) + if log[|log| - 1].source == s then 1 else 0
  }

  /** Whether an event leaves the routing and the pending bit of source `s` alone. */
  predicate Quiet(numSources: nat, e: Event, s: nat) {
    match e
    case Irq(_, _) => true
    case Bind(t, _, _) => t != s
    case Store(offset, val) =>
      match Decode(offset, numSources)
      case Domaincfg => val / 0x100 % 2 == 1
      case Sourcecfg(t) => t != s
      case TargetOf(t) => t != s
      case Bitmap(_, word) => !(word * 32 <= s < word * 32 + 32 && BitOf(val % 0x1_0000_0000, s - word * 32))
      case Numbered(_) => val % 0x1_0000_0000 != s
      case Ignored => true
  }

  /** The level a source sees after a run. */
  function LastLevel(was: bool, es: seq<Event>, s: nat): bool {
    if es == [] then was
    else
      var e := es[|es| - 1];
      if e.Irq? && e.source == s then e.level else LastLevel(was, es[..|es| - 1], s)
  }

  /** How many calls of a run are interrupts of source `s`. */
  function Firings(sm: nat, was: bool, es: seq<Event>, s: nat): nat {
    if es == [] then 0
    else
      var e := es[|es| - 1];
      var front := es[..|es| - 1];
      Firings(sm, was, front, s) + if e.Irq? && e.source == s && Fires(sm, LastLevel(was, front, s), e.level) then 1 else 0
  }

  lemma SentByOne(a: Aplic, t: nat, x: Source, deliver: bool, s: nat)
    requires a.IsSource(t)
    ensures SentBy(Update(a, t, x, deliver).sent, s)
         == SentBy(a.sent, s) + if t == s && deliver && Sends(a.ie, x) then 1 else 0
  {
    if deliver && Sends(a.ie, x) {
      var m := Msi(t, HartIndex(x), Eiid(x));
      assert (a.sent + [m])[..|a.sent|] == a.sent;
    } else if deliver {
      assert a.sent + [] == a.sent;
    }
  }

  /** Source `s` of `b` is as it was, and no message of it was sent in between. */
  ghost predicate Still(a: Aplic, b: Aplic, s: nat)
    requires a.IsSource(s)
  {
    && |b.sources| == |a.sources| && b.ie == a.ie && b.sources[s] == a.sources[s]
    && SentBy(b.sent, s) == SentBy(a.sent, s)
  }

  lemma OtherBitStill(a: Aplic, t: nat, op: BitOp, s: nat)
    requires a.IsSource(s) && a.IsSource(t) && t != s
    ensures Still(a, BitWrite(a, t, op), s)
  {
    hide SentBy;
    var x := a.sources[t];
    SentByOne(a, t, x.(pending := true), true, s);
    SentByOne(a, t, x.(pending := false), false, s);
    SentByOne(a, t, x.(enabled := true), true, s);
    SentByOne(a, t, x.(enabled := false), false, s);
  }

  lemma {:induction false} DeliverBelowStill(a: Aplic, n: nat, s: nat)
    requires a.IsSource(s) && 1 <= n <= |a.sources| && !a.sources[s].pending
    ensures Still(a, DeliverBelow(a, n), s)
  {
    hide SentBy;
    if n > 1 {
      DeliverBelowStill(a, n - 1, s);
      var b := DeliverBelow(a, n - 1);
      SentByOne(b, n - 1, b.sources[n - 1], true, s);
    }
  }

  lemma {:induction false} BitmapStill(a: Aplic, op: BitOp, word: nat, val: nat, n: nat, s: nat)
    requires a.IsSource(s) && n <= 32
    requires !(word * 32 <= s < word * 32 + 32 && BitOf(val, s - word * 32))
    ensures Still(a, BitmapBelow(a, op, word, val, n), s)
  {
    hide SentBy, BitOf, BitWrite;
    if n > 0 {
      BitmapStill(a, op, word, val, n - 1, s);
      var b, t := BitmapBelow(a, op, word, val, n - 1), word * 32 + n - 1;
      if BitOf(val, n - 1) && b.IsSource(t) {
        assert t - word * 32 == n - 1;
        OtherBitStill(b, t, op, s);
      }
    }
  }

  lemma StoreStill(a: Aplic, e: Event, s: nat)
    requires a.IsSource(s) && e.Store? && Quiet(|a.sources| - 1, e, s) && a.ie && !a.sources[s].pending
    ensures Still(a, Step(a, e), s)
  {
    hide SentBy, BitOf, BitWrite, Decode;
    var r, val := Decode(e.offset, |a.sources| - 1), e.val % 0x1_0000_0000;
    match r
    case Domaincfg =>
      assert val / 0x100 % 2 == e.val / 0x100 % 2;
      DeliverBelowStill(a.(ie := true, dm := val / 4 % 2 == 1), |a.sources|, s);
    case Sourcecfg(t) => SentByOne(a, t, Configured(a.sources[t], val % 8), false, s);
    case TargetOf(t) => SentByOne(a, t, a.sources[t].(target := val), false, s);
    case Bitmap(op, word) => BitmapStill(a, op, word, val, 32, s);
    case Numbered(op) =>
      if a.IsSource(val) {
        OtherBitStill(a, val, op, s);
      }
    case Ignored =>
  }

  lemma BindStill(a: Aplic, t: int, hart: int, eiid: nat, s: nat)
    requires a.IsSource(s) && t != s
    ensures Still(a, BindSource(a, t, hart, eiid), s)
  {
    if a.IsSource(t) && 0 <= hart <= 0x3FFF {
      SentByOne(a, t, a.sources[t].(sm := LEVEL_HIGH, target := hart * 0x4_0000 + eiid % 0x800, enabled := true), false, s);
    }
  }

  /** The source can send: nothing stands between an interrupt and its message. */
  ghost predicate Routed(a: Aplic, s: nat) {
    && a.IsSource(s) && a.ie
    && a.sources[s].enabled && !a.sources[s].pending && a.sources[s].sm != INACTIVE && Eiid(a.sources[s]) != 0
  }

  predicate Drives(e: Event, s: nat) {
    e.Irq? && e.source == s
  }

  /** `b` differs from `a` at source `s` by the input level and by at most one message. */
  ghost predicate Follows(a: Aplic, b: Aplic, s: nat, level: bool, message: bool)
    requires a.IsSource(s)
  {
    && |b.sources| == |a.sources| && b.ie == a.ie && b.sources[s] == a.sources[s].(input := level)
    && SentBy(b.sent, s) == SentBy(a.sent, s) + if message then 1 else 0
  }

  lemma IrqFollows(a: Aplic, t: int, level: bool, s: nat)
    requires Routed(a, s)
    ensures t == s ==> Follows(a, SetIrq(a, t, level), s, level, Fires(a.sources[s].sm, a.sources[s].input, level))
    ensures t != s ==> Follows(a, SetIrq(a, t, level), s, a.sources[s].input, false)
  {
    hide SentBy;
    if a.IsSource(t) {
      var y := a.sources[t];
      SentByOne(a, t, Driven(y, level), Fires(y.sm, y.input, level) && !y.pending, s);
    }
  }

  lemma StepFollows(a: Aplic, e: Event, s: nat)
    requires Routed(a, s) && Quiet(|a.sources| - 1, e, s)
    ensures Follows(a, Step(a, e), s,
                    if Drives(e, s) then e.level else a.sources[s].input,
                    Drives(e, s) && Fires(a.sources[s].sm, a.sources[s].input, e.level))
  {
    hide SentBy, MmioWrite, BindSource, SetIrq, Fires;
    match e
    case Irq(t, level) => IrqFollows(a, t, level, s);
    case Bind(t, hart, eiid) => BindStill(a, t, hart, eiid, s);
    case Store(_, _) => StoreStill(a, e, s);
  }

  lemma HistoryUnfolds(sm: nat, was: bool, es: seq<Event>, s: nat)
    requires es != []
    ensures var front, e := es[..|es| - 1], es[|es| - 1];
      && LastLevel(was, es, s) == (if Drives(e, s) then e.level else LastLevel(was, front, s))
      && Firings(sm, was, es, s)
         == Firings(sm, was, front, s) + if Drives(e, s) && Fires(sm, LastLevel(was, front, s), e.level) then 1 else 0
  {
  }

  /**
   Messages are conserved. While the domain is on and source `s` stays enabled and routed, every call
   that is an interrupt of its trigger type sends exactly one message and nothing else sends any.
   */
  lemma {:induction false} MessagesMatchFirings(a: Aplic, es: seq<Event>, s: nat)
    requires Routed(a, s) && forall k | 0 <= k < |es| :: Quiet(|a.sources| - 1, es[k], s)
    ensures Accounted(a, Run(a, es), es, s)
  {
    if es == [] {
    } else {
      hide Accounted, Routed, Step, Quiet;
      var front, e := es[..|es| - 1], es[|es| - 1];
      MessagesMatchFirings(a, front, s);
      AccountsForStep(a, Run(a, front), es, s);
    }
  }

  /** `b` is what the history makes of source `s` of `a`, with a message for every firing. */
  ghost predicate Accounted(a: Aplic, b: Aplic, es: seq<Event>, s: nat) {
    && Routed(a, s) && Routed(b, s) && |b.sources| == |a.sources|
    && b.sources[s] == a.sources[s].(input := LastLevel(a.sources[s].input, es, s))
    && SentBy(b.sent, s) == SentBy(a.sent, s) + Firings(a.sources[s].sm, a.sources[s].input, es, s)
  }

  lemma AccountsForStep(a: Aplic, b: Aplic, es: seq<Event>, s: nat)
    requires es != [] && Accounted(a, b, es[..|es| - 1], s)
    requires Quiet(|a.sources| - 1, es[|es| - 1], s)
    ensures Accounted(a, Step(b, es[|es| - 1]), es, s)
  {
    hide SentBy, Step, Fires, Quiet, Firings, LastLevel;
    StepFollows(b, es[|es| - 1], s);
    HistoryUnfolds(a.sources[s].sm, a.sources[s].input, es, s);
  }

  /** The levels that the calls of a run give to source `s`, in order. */
  function Levels(es: seq<Event>, s: nat): seq<bool> {
    if es == [] then []
    else Levels(es[..|es| - 1], s) + if Drives(es[|es| - 1], s) then [es[|es| - 1].level] else []
  }

  /**
   Whether call `k` is an interrupt for a trigger type: rising edges for type 4, falling edges for 5, calls with
   the line high for 6, calls with the line low for 7, and none for any other.
   */
  predicate InterruptAt(sm: nat, was: bool, levels: seq<bool>, k: nat)
    requires k < |levels|
  {
    var before := if k == 0 then was else levels[k - 1];
    || (sm == 4 && levels[k] && !before)
    || (sm == 5 && !levels[k] && before)
    || (sm == 6 && levels[k])
    || (sm == 7 && !levels[k])
  }

  ghost function InterruptsAt(sm: nat, was: bool, levels: seq<bool>): set<nat> {
    set k: nat | 0 <= k < |levels| && InterruptAt(sm, was, levels, k)
  }

  lemma {:induction false} TriggerFirings(sm: nat, was: bool, es: seq<Event>, s: nat)
    ensures Firings(sm, was, es, s) == |InterruptsAt(sm, was, Levels(es, s))|
    ensures LastLevel(was, es, s) == if Levels(es, s) == [] then was else Levels(es, s)[|Levels(es, s)| - 1]
  {
    if es != [] {
      hide InterruptsAt, InterruptAt, LastLevel, Firings, Fires;
      var front, e := es[..|es| - 1], es[|es| - 1];
      TriggerFirings(sm, was, front, s);
      var ls := Levels(front, s);
      HistoryUnfolds(sm, was, es, s);
      if Drives(e, s) {
        InterruptsAppend(sm, was, ls, e.level);
      } else {
        assert ls + [] == ls;
      }
    }
  }

  lemma InterruptsAppend(sm: nat, was: bool, levels: seq<bool>, level: bool)
    ensures var last := if levels == [] then was else levels[|levels| - 1];
      |InterruptsAt(sm, was, levels + [level])| == |InterruptsAt(sm, was, levels)| + if Fires(sm, last, level) then 1 else 0
  {
    hide InterruptAt, Fires;
    var n, longer := |levels|, levels + [level];
    forall k: nat | k < n
      ensures InterruptAt(sm, was, longer, k) == InterruptAt(sm, was, levels, k)
    {
      InterruptPrefix(sm, was, levels, level, k);
    }
    InterruptLast(sm, was, levels, level);
    assert InterruptsAt(sm, was, longer)
        == InterruptsAt(sm, was, levels) + if InterruptAt(sm, was, longer, n) then {n} else {};
  }

  lemma InterruptPrefix(sm: nat, was: bool, levels: seq<bool>, level: bool, k: nat)
    requires k < |levels|
    ensures InterruptAt(sm, was, levels + [level], k) == InterruptAt(sm, was, levels, k)
  {
  }

  lemma InterruptLast(sm: nat, was: bool, levels: seq<bool>, level: bool)
    ensures InterruptAt(sm, was, levels + [level], |levels|)
         == Fires(sm, if levels == [] then was else levels[|levels| - 1], level)
  {
  }

  /** For every trigger type the messages of a routed source are the interrupts of its input. */
  lemma EdgesConserved(a: Aplic, es: seq<Event>, s: nat)
    requires Routed(a, s) && forall k | 0 <= k < |es| :: Quiet(|a.sources| - 1, es[k], s)
    ensures SentBy(Run(a, es).sent, s)
         == SentBy(a.sent, s) + |InterruptsAt(a.sources[s].sm, a.sources[s].input, Levels(es, s))|
  {
    hide Firings, InterruptsAt;
    MessagesMatchFirings(a, es, s);
    TriggerFirings(a.sources[s].sm, a.sources[s].input, es, s);
  }

  /** The message of a source goes to the hart in bits 31 to 18 of its target, as the identity in bits 10 to 0. */
  lemma TargetRoutes(a: Aplic, s: nat, hart: nat, between: nat, eiid: nat)
    requires a.IsSource(s) && a.ie && a.sources[s].pending && a.sources[s].enabled
    requires a.sources[s].target == hart * 0x4_0000 + between * 0x800 + eiid
    requires hart <= 0x3FFF && between < 0x80 && eiid < 0x800
    ensures Deliver(a, s).sent == a.sent + if eiid > 0 then [Msi(s, hart, eiid)] else []
    ensures Deliver(a, s).sources == a.sources[s := a.sources[s].(pending := false)]
  {
    var t := a.sources[s].target;
    assert t == 0x800 * (hart * 0x80 + between) + eiid;
    DivModUnique(t, 0x800, hart * 0x80 + between, eiid);
    DivModUnique(t, 0x4_0000, hart, between * 0x800 + eiid);
  }

  /**
   One call of a device, in any state of the source: the input follows, the source pends when its trigger type
   says so, and sends when it was not pending before, is enabled and the domain is on.
   */
  lemma IrqIs(a: Aplic, s: nat, level: bool)
    requires a.IsSource(s) && a.sources[s].sm != 0
    ensures var x, b := a.sources[s], SetIrq(a, s, level);
      var fires := (x.sm == 4 && level && !x.input) || (x.sm == 5 && !level && x.input) || (x.sm == 6 && level) || (x.sm == 7 && !level);
      var goes := fires && !x.pending && a.ie && x.enabled;
      && b.sources[s] == x.(input := level, pending := (x.pending || fires) && !goes)
      && SentBy(b.sent, s) == SentBy(a.sent, s) + if goes && x.target % 0x800 != 0 then 1 else 0
  {
    hide SentBy;
    var x := a.sources[s];
    SentByOne(a, s, Driven(x, level), Fires(x.sm, x.input, level) && !x.pending, s);
  }

  /** A bound source sends to the hart and identity it was bound to, as soon as its input is asserted. */
  lemma BoundSourceSends(a: Aplic, s: nat, hart: nat, eiid: nat)
    requires a.IsSource(s) && a.ie && !a.sources[s].pending && hart <= 0x3FFF && eiid % 0x800 > 0
    ensures BindSource(a, s, hart, eiid).sources[s] == a.sources[s].(sm := 6, enabled := true, target := hart * 0x4_0000 + eiid % 0x800)
    ensures SetIrq(BindSource(a, s, hart, eiid), s, true).sent == a.sent + [Msi(s, hart, eiid % 0x800)]
  {
    var t, b := hart * 0x4_0000 + eiid % 0x800, BindSource(a, s, hart, eiid);
    assert b.sources[s] == a.sources[s].(sm := 6, enabled := true, target := t);
    assert t == 0x800 * (hart * 0x80) + eiid % 0x800;
    DivModUnique(t, 0x800, hart * 0x80, eiid % 0x800);
    DivModUnique(t, 0x4_0000, hart, eiid % 0x800);
    hide BindSource;
    assert Eiid(b.sources[s]) == eiid % 0x800 && HartIndex(b.sources[s]) == hart;
    hide Eiid, HartIndex;
  }

  // ---- the register map ----

  /** What a bit operation leaves at its source. */
  ghost predicate Obeyed(op: BitOp, before: Source, after: Source, ie: bool) {
    match op
    case SetIe => after.enabled && (after.pending <==> before.pending && !ie)
    case ClrIe => !after.enabled && after.pending == before.pending
    case ClrIp => after.enabled == before.enabled && (after.pending ==> before.sm == INACTIVE)
    case SetIp =>
      var heard := before.sm != 0 && (before.sm == 6 ==> before.input) && (before.sm == 7 ==> !before.input);
      after.enabled == before.enabled && (after.pending <==> (before.pending || heard) && !(heard && ie && before.enabled))
  }

  /** A bitmap write obeys for each source whose bit is set and leaves the others as they were. */
  lemma {:induction false} BitmapObeyed(a: Aplic, op: BitOp, word: nat, val: nat, n: nat, s: nat)
    requires a.IsSource(s) && n <= 32
    ensures var selected := word * 32 <= s < word * 32 + n && BitOf(val, s - word * 32);
      && (selected ==> Obeyed(op, a.sources[s], BitmapBelow(a, op, word, val, n).sources[s], a.ie))
      && (!selected ==> BitmapBelow(a, op, word, val, n).sources[s] == a.sources[s])
  {
    hide BitOf, Pow2;
    if n > 0 {
      BitmapObeyed(a, op, word, val, n - 1, s);
      BitObeyed(BitmapBelow(a, op, word, val, n - 1), s, op);
    }
  }

  lemma BitObeyed(a: Aplic, s: nat, op: BitOp)
    requires a.IsSource(s)
    ensures Obeyed(op, a.sources[s], BitWrite(a, s, op).sources[s], a.ie)
  {
  }

  /**
   The four pairs of bitmap words do to each source what their names say, as long as the sourcecfg words
   end before them.
   */
  lemma BitmapRegisters(a: Aplic, op: BitOp, word: nat, val: nat, s: nat)
    requires a.IsSource(s) && |a.sources| <= 0x700 && word < 2 && val < 0x1_0000_0000
    ensures var offset := (match op case SetIp => 0x1C00 case ClrIp => 0x1D00 case SetIe => 0x1E00 case ClrIe => 0x1F00) + 4 * word;
      var after := MmioWrite(a, offset, val).sources[s];
      if s / 32 == word && val / Pow2(s % 32) % 2 == 1 then Obeyed(op, a.sources[s], after, a.ie) else after == a.sources[s]
  {
    hide Pow2, BitmapBelow, Obeyed;
    BitmapObeyed(a, op, word, val, 32, s);
    assert s / 32 == word ==> s - word * 32 == s % 32;
  }

  /** The five numbered registers do the same to the source whose number is written. */
  lemma NumberedRegisters(a: Aplic, op: BitOp, le: bool, val: nat, s: nat)
    requires a.IsSource(s) && |a.sources| <= 0x700 && val < 0x1_0000_0000 && (le ==> op == SetIp)
    ensures var offset := if le then 0x2000 else match op case SetIp => 0x1CDC case ClrIp => 0x1DDC case SetIe => 0x1EDC case ClrIe => 0x1FDC;
      var after := MmioWrite(a, offset, val).sources[s];
      if s == val then Obeyed(op, a.sources[s], after, a.ie) else after == a.sources[s]
  {
    hide Obeyed, BitWrite;
    if a.IsSource(val) {
      BitObeyed(a, val, op);
    }
  }

  /** A write anywhere else does nothing. */
  lemma OtherRegistersAreIgnored(a: Aplic, offset: nat, val: nat)
    requires a.Wf() && offset >= 4 && offset >= 4 * |a.sources|
    requires !(0x3004 <= offset < 0x3000 + 4 * |a.sources|)
    requires offset / 4 * 4 !in {0x1C00, 0x1C04, 0x1D00, 0x1D04, 0x1E00, 0x1E04, 0x1F00, 0x1F04, 0x1CDC, 0x1DDC, 0x1EDC, 0x1FDC, 0x2000}
    ensures MmioWrite(a, offset, val) == a
  {
    hide WriteDomaincfg, BitmapBelow, BitWrite;
  }

  /** The configuration and target words of a source, four bytes apart from 0x4 and from 0x3004 on. */
  lemma SourceRegisters(a: Aplic, s: nat, val: nat, t: nat)
    requires a.IsSource(s) && a.IsSource(t) && |a.sources| <= 0x700 && val < 0x1_0000_0000
    ensures var before, after, sm := a.sources[s], MmioWrite(a, 4 * s, val).sources, val % 8;
      var active := if sm == 5 || sm == 7 then !before.input else before.input;
      && after[s] == before.(sm := sm, enabled := sm != 0 && before.enabled, pending := sm != 0 && (before.pending || active))
      && (t != s ==> after[t] == a.sources[t])
    ensures MmioWrite(a, 0x3000 + 4 * s, val) == a.(sources := a.sources[s := a.sources[s].(target := val)])
    ensures MmioWrite(a, 4 * s, val).sent == a.sent
  {
    assert Decode(4 * s, |a.sources| - 1) == Sourcecfg(s);
    assert Decode(0x3000 + 4 * s, |a.sources| - 1) == TargetOf(s);
    hide Decode;
  }

  /**
   The domain register keeps bits 8 and 2. With bit 8 set every source that is pending and enabled stops pending
   and sends one message, if it has an identity; with bit 8 clear nothing is delivered.
   */
  lemma DomainRegister(a: Aplic, val: nat, s: nat)
    requires a.IsSource(s) && val < 0x1_0000_0000
    ensures var b, x := MmioWrite(a, 0, val), a.sources[s];
      var goes := val / 0x100 % 2 == 1 && x.pending && x.enabled;
      && b.ie == (val / 0x100 % 2 == 1) && b.dm == (val / 4 % 2 == 1)
      && b.sources[s] == x.(pending := x.pending && !goes)
      && SentBy(b.sent, s) == SentBy(a.sent, s) + if goes && x.target % 0x800 != 0 then 1 else 0
  {
    hide SentBy;
    assert Decode(0, |a.sources| - 1) == Domaincfg;
    hide Decode;
    if val / 0x100 % 2 == 1 {
      DeliverBelowIs(a.(ie := true, dm := val / 4 % 2 == 1), |a.sources|, s);
    }
  }

  lemma {:induction false} DeliverBelowIs(a: Aplic, n: nat, s: nat)
    requires a.IsSource(s) && 1 <= n <= |a.sources| && a.ie
    ensures var b, x := DeliverBelow(a, n), a.sources[s];
      var goes := s < n && x.pending && x.enabled;
      && b.sources[s] == x.(pending := x.pending && !goes)
      && SentBy(b.sent, s) == SentBy(a.sent, s) + if goes && x.target % 0x800 != 0 then 1 else 0
  {
    hide SentBy;
    if n > 1 {
      DeliverBelowIs(a, n - 1, s);
      var b := DeliverBelow(a, n - 1);
      SentByOne(b, n - 1, b.sources[n - 1], true, s);
    }
  }

  // ---- level re-trigger ----

  /** At the end of an interrupt software asks again: a level source sends exactly while its input is active. */
  lemma RetriggerSendsIff(a: Aplic, s: nat)
    requires a.IsSource(s) && a.ie && a.sources[s].enabled && a.sources[s].target % 0x800 != 0 && s < 0x1_0000_0000
    requires (a.sources[s].sm == 6 || a.sources[s].sm == 7) && |a.sources| <= 2048
    ensures SentBy(MmioWrite(a, 0x2000, s).sent, s)
         == SentBy(a.sent, s) + if a.sources[s].input == (a.sources[s].sm == 6) then 1 else 0
  {
    hide SentBy;
    assert Decode(0x2000, |a.sources| - 1) == Numbered(SetIp);
    SentByOne(a, s, a.sources[s].(pending := true), true, s);
  }
}
